/**
 Theorems about whole WebSocket streams: pieces do not matter, what is delivered is the abstract
 reassembly of the frames, and closing is final.
 */
module WebSocketStreams {
  import opened Common
  import opened WebSocketFrames
  import opened WebSocketConnection
  import Utf8

  // ---------------------------------------------------------------- chunking

  lemma ClosedStays(s: State, input: seq<byte>, limit: nat)
    requires s.closed
    ensures Run(s, input, limit) == Outcome(s, input)
  {
  }

  /** Running over a stream is running over its front and then over what is left and the back. */
  lemma {:induction false} RunInTwo(s: State, p: seq<byte>, q: seq<byte>, limit: nat)
    ensures var first := Run(s, p, limit);
            var second := Run(first.state, first.rest + q, limit);
            var whole := Run(s, p + q, limit);
            whole.state == second.state && (!whole.state.closed ==> whole.rest == second.rest)
    decreases |p|
  {
    hide ParseFrame, Process;
    if !s.closed {
      ParseExtend(p, q, limit);
      match ParseFrame(p, limit)
      case NeedMore =>
      case Bad(code, reason) => ClosedStays(Fail(s, code, reason), p + q, limit);
      case Whole(fin, opcode, payload, total) =>
        assert (p + q)[total..] == p[total..] + q;
        RunInTwo(Process(s, fin, opcode, payload, limit), p[total..], q, limit);
    }
  }

  /** Successive feeds: once closed, a connection ignores its input. */
  function FeedPieces(s: State, buffer: seq<byte>, pieces: seq<seq<byte>>, limit: nat): State
    decreases |pieces|
  {
    if pieces == [] then s
    else if s.closed then FeedPieces(s, buffer, pieces[1..], limit)
    else
      var r := Run(s, buffer + pieces[0], limit);
      FeedPieces(r.state, r.rest, pieces[1..], limit)
  }

  lemma {:induction false} ClosedIgnores(s: State, buffer: seq<byte>, pieces: seq<seq<byte>>, limit: nat)
    requires s.closed
    ensures FeedPieces(s, buffer, pieces, limit) == s
    decreases |pieces|
  {
    if pieces != [] { ClosedIgnores(s, buffer, pieces[1..], limit); }
  }

  lemma {:induction false} RunIsSettled(s: State, input: seq<byte>, limit: nat)
    ensures var r := Run(s, input, limit); Run(r.state, r.rest, limit) == r
    decreases |input|
  {
    if !s.closed && ParseFrame(input, limit).Whole? {
      var f := ParseFrame(input, limit);
      RunIsSettled(Process(s, f.fin, f.opcode, f.payload, limit), input[f.total..], limit);
    }
  }

  lemma {:induction false} FeedPiecesIsRun(s: State, buffer: seq<byte>, pieces: seq<seq<byte>>, limit: nat)
    requires Run(s, buffer, limit) == Outcome(s, buffer)
    ensures FeedPieces(s, buffer, pieces, limit) == Run(s, buffer + Flatten(pieces), limit).state
    decreases |pieces|
  {
    hide Run;
    if pieces == [] {
      assert buffer + [] == buffer;
    } else if s.closed {
      ClosedStays(s, buffer + Flatten(pieces), limit);
      ClosedIgnores(s, buffer, pieces, limit);
    } else {
      var p, q := buffer + pieces[0], Flatten(pieces[1..]);
      assert buffer + Flatten(pieces) == p + q;
      RunInTwo(s, p, q, limit);
      RunIsSettled(s, p, limit);
      var r := Run(s, p, limit);
      FeedPiecesIsRun(r.state, r.rest, pieces[1..], limit);
    }
  }

  /** However a stream is cut, the handler sees the same messages, pongs and close notification. */
  lemma PiecesDoNotMatter(pieces: seq<seq<byte>>, limit: nat)
    ensures FeedPieces(INITIAL, [], pieces, limit) == Run(INITIAL, Flatten(pieces), limit).state
  {
    assert [] + Flatten(pieces) == Flatten(pieces);
    FeedPiecesIsRun(INITIAL, [], pieces, limit);
  }

  // ---------------------------------------------------------------- frames of a stream

  datatype Frame = Frame(fin: bool, opcode: Opcode, payload: seq<byte>)

  function FramesOf(input: seq<byte>, limit: nat): seq<Frame>
    decreases |input|
  {
    match ParseFrame(input, limit)
    case Whole(fin, opcode, payload, total) => [Frame(fin, opcode, payload)] + FramesOf(input[total..], limit)
    case _ => []
  }

  /** What follows the last whole frame: an incomplete frame or a malformed one. */
  function Remainder(input: seq<byte>, limit: nat): seq<byte>
    decreases |input|
  {
    match ParseFrame(input, limit)
    case Whole(_, _, _, total) => Remainder(input[total..], limit)
    case _ => input
  }

  function RunFrames(s: State, frames: seq<Frame>, limit: nat): State
    decreases |frames|
  {
    if frames == [] || s.closed then s
    else RunFrames(Process(s, frames[0].fin, frames[0].opcode, frames[0].payload, limit), frames[1..], limit)
  }

  function Ending(s: State, verdict: Parse): State {
    if !s.closed && verdict.Bad? then Fail(s, verdict.code, verdict.reason) else s
  }

  lemma {:induction false} RunByFrames(s: State, input: seq<byte>, limit: nat)
    ensures Run(s, input, limit).state ==
            Ending(RunFrames(s, FramesOf(input, limit), limit), ParseFrame(Remainder(input, limit), limit))
    decreases |input|
  {
    hide ParseFrame, Process;
    match ParseFrame(input, limit)
    case Whole(fin, opcode, payload, total) =>
      assert FramesOf(input, limit)[1..] == FramesOf(input[total..], limit);
      if !s.closed { RunByFrames(Process(s, fin, opcode, payload, limit), input[total..], limit); }
    case _ =>
  }

  // ---------------------------------------------------------------- abstract reassembly

  function Data(frames: seq<Frame>): seq<Frame> {
    if frames == [] then []
    else (if IsControl(frames[0].opcode) then [] else [frames[0]]) + Data(frames[1..])
  }

  function FirstFin(data: seq<Frame>): (k: nat)
    ensures k <= |data| && (forall i :: 0 <= i < k ==> !data[i].fin) && (k < |data| ==> data[k].fin)
  {
    if data == [] || data[0].fin then 0 else 1 + FirstFin(data[1..])
  }

  function Payloads(data: seq<Frame>): seq<byte> {
    if data == [] then [] else Payloads(data[..|data| - 1]) + data[|data| - 1].payload
  }

  /** A message is a run of data frames up to the first final one; its payload is theirs, in order. */
  function Reassembled(data: seq<Frame>): seq<Event>
    decreases |data|
  {
    var k := FirstFin(data);
    if k == |data| then []
    else [Message(data[0].opcode, Payloads(data[..k + 1]))] + Reassembled(data[k + 1..])
  }

  /** One message, possibly unfinished: it opens with a data opcode and goes on with continuations only. */
  predicate GoodGroup(group: seq<Frame>, limit: nat) {
    && (group != [] ==> group[0].opcode.Text? || group[0].opcode.Binary?)
    && (forall i :: 0 < i < |group| ==> group[i].opcode.Continuation?)
    && |Payloads(group)| <= limit
  }

  predicate GoodData(data: seq<Frame>, limit: nat)
    decreases |data|
  {
    var k := FirstFin(data);
    if k == |data| then GoodGroup(data, limit)
    else
      && GoodGroup(data[..k + 1], limit)
      && (data[0].opcode.Text? ==> Utf8.WellFormed(Payloads(data[..k + 1])))
      && GoodData(data[k + 1..], limit)
  }

  predicate HasClose(frames: seq<Frame>) { exists i :: 0 <= i < |frames| && frames[i].opcode.Close? }

  function Messages(log: seq<Event>): seq<Event> {
    if log == [] then []
    else Messages(log[..|log| - 1]) + if log[|log| - 1].Message? then [log[|log| - 1]] else []
  }

  lemma MessagesSnoc(log: seq<Event>, e: Event)
    ensures Messages(log + [e]) == Messages(log) + if e.Message? then [e] else []
  {
    assert (log + [e])[..|log|] == log;
  }

  lemma MessagesOfClose(s: State, code: nat, reason: Reason)
    ensures Messages(CloseWith(s, code, reason).log) == Messages(s.log)
  {
    var sent := s.log + [SendClose(code, reason)];
    MessagesSnoc(s.log, SendClose(code, reason));
    MessagesSnoc(sent, Notified(code, reason));
    assert sent + [] == sent;
  }

  /** The state while `open`, an unfinished message, has been received. */
  predicate Holding(s: State, open: seq<Frame>) {
    && !s.closed
    && s.fragmented == (open != [])
    && s.payload == Payloads(open)
    && (open != [] ==> s.opcode == open[0].opcode)
  }

  lemma PayloadsSnoc(data: seq<Frame>, f: Frame)
    ensures Payloads(data + [f]) == Payloads(data) + f.payload
  {
    assert (data + [f])[..|data|] == data;
  }

  lemma {:induction false} FirstFinAfter(open: seq<Frame>, f: Frame, rest: seq<Frame>)
    requires forall i :: 0 <= i < |open| ==> !open[i].fin
    requires f.fin
    ensures FirstFin(open + [f] + rest) == |open|
  {
    if open == [] {
      assert (open + [f] + rest)[0] == f;
    } else {
      assert (open + [f] + rest)[1..] == open[1..] + [f] + rest;
      FirstFinAfter(open[1..], f, rest);
    }
  }

  lemma FirstFinNone(open: seq<Frame>)
    requires forall i :: 0 <= i < |open| ==> !open[i].fin
    ensures FirstFin(open) == |open|
  {
  }

  ghost predicate Open(open: seq<Frame>, limit: nat) {
    (forall i :: 0 <= i < |open| ==> !open[i].fin) && GoodGroup(open, limit)
  }

  lemma ClosingDeliversNothing(s: State, f: Frame, limit: nat)
    requires !s.closed && Process(s, f.fin, f.opcode, f.payload, limit).closed
    ensures Messages(Process(s, f.fin, f.opcode, f.payload, limit).log) == Messages(s.log)
  {
    hide Messages, Utf8.WellFormed, FromBigEndian, ValidCloseCode;
    var s' := Process(s, f.fin, f.opcode, f.payload, limit);
    var e := s'.log[|s.log|];
    MessagesOfClose(s, e.code, e.reason);
  }

  ghost predicate Completes(group: seq<Frame>, limit: nat, fin: bool)
    requires group != []
  {
    GoodGroup(group, limit) && (fin && group[0].opcode.Text? ==> Utf8.WellFormed(Payloads(group)))
  }

  lemma FirstDataStep(s: State, f: Frame, limit: nat)
    requires Holding(s, []) && !IsControl(f.opcode) && |f.payload| <= limit
    ensures var s' := Process(s, f.fin, f.opcode, f.payload, limit);
            && s'.closed == !Completes([f], limit, f.fin)
            && (!s'.closed && !f.fin ==> Holding(s', [f]) && s'.log == s.log)
            && (!s'.closed && f.fin ==> Holding(s', []) && s'.log == s.log + [Message(f.opcode, Payloads([f]))])
  {
    hide Payloads, Utf8.WellFormed;
    PayloadsSnoc([], f);
    PayloadsOfNothing();
    assert [] + [f] == [f] && [] + f.payload == f.payload;
  }

  lemma NextDataStep(s: State, open: seq<Frame>, f: Frame, limit: nat)
    requires open != [] && Holding(s, open) && Open(open, limit) && !IsControl(f.opcode)
    ensures var s' := Process(s, f.fin, f.opcode, f.payload, limit);
            var group := open + [f];
            && s'.closed == !Completes(group, limit, f.fin)
            && (!s'.closed && !f.fin ==> Holding(s', group) && s'.log == s.log)
            && (!s'.closed && f.fin ==> Holding(s', []) && s'.log == s.log + [Message(open[0].opcode, Payloads(group))])
  {
    hide Payloads, Utf8.WellFormed;
    PayloadsSnoc(open, f);
    assert Payloads([]) == [] by { PayloadsOfNothing(); }
    var group := open + [f];
    assert group[0] == open[0] && group[|open|] == f;
    assert forall i :: 0 < i < |open| ==> group[i] == open[i];
  }

  lemma PayloadsOfNothing()
    ensures Payloads([]) == []
  {
  }

  /** A data frame that fits: the group grows or is delivered. One that does not: the connection closes. */
  lemma DataStep(s: State, open: seq<Frame>, f: Frame, limit: nat)
    requires Holding(s, open) && Open(open, limit) && !IsControl(f.opcode) && |f.payload| <= limit
    ensures var s' := Process(s, f.fin, f.opcode, f.payload, limit);
            var group := open + [f];
            && s'.closed == !Completes(group, limit, f.fin)
            && (!s'.closed && !f.fin ==> Holding(s', group) && s'.log == s.log)
            && (!s'.closed && f.fin ==>
                  Holding(s', []) && s'.log == s.log + [Message(group[0].opcode, Payloads(group))])
  {
    hide Process, Payloads, Completes, Holding;
    if open == [] {
      assert open + [f] == [f];
      FirstDataStep(s, f, limit);
    } else {
      NextDataStep(s, open, f, limit);
    }
  }

  lemma GoodDataAfter(open: seq<Frame>, f: Frame, rest: seq<Frame>, limit: nat)
    requires Open(open, limit) && f.fin
    ensures var data := open + [f] + rest;
            && GoodData(data, limit) == (Completes(open + [f], limit, true) && GoodData(rest, limit))
            && Reassembled(data) == [Message((open + [f])[0].opcode, Payloads(open + [f]))] + Reassembled(rest)
  {
    hide Payloads;
    var data := open + [f] + rest;
    FirstFinAfter(open, f, rest);
    assert data[..|open| + 1] == open + [f] && data[|open| + 1..] == rest && data[0] == (open + [f])[0];
  }

  /** A group that has gone wrong cannot be mended by what follows. */
  lemma {:induction false} BrokenStaysBroken(group: seq<Frame>, rest: seq<Frame>, limit: nat)
    requires (forall i :: 0 <= i < |group| ==> !group[i].fin) && !GoodGroup(group, limit)
    ensures !GoodData(group + rest, limit)
    decreases |rest|
  {
    hide Payloads;
    if rest == [] {
      assert group + rest == group;
      FirstFinNone(group);
    } else {
      var f := rest[0];
      assert group + rest == group + [f] + rest[1..];
      GroupPrefix(group, f, limit);
      if f.fin {
        FirstFinAfter(group, f, rest[1..]);
        assert (group + rest)[..|group| + 1] == group + [f];
      } else {
        BrokenStaysBroken(group + [f], rest[1..], limit);
      }
    }
  }

  lemma GroupPrefix(group: seq<Frame>, f: Frame, limit: nat)
    requires !GoodGroup(group, limit)
    ensures !GoodGroup(group + [f], limit)
  {
    hide Payloads;
    PayloadsSnoc(group, f);
    var more := group + [f];
    assert forall i :: 0 <= i < |group| ==> more[i] == group[i];
    if group == [] { PayloadsOfNothing(); }
  }

  /** The machine against the reassembly, from any open message on. */
  lemma {:induction false} ReassemblyFrom(s: State, open: seq<Frame>, frames: seq<Frame>, limit: nat)
    requires Holding(s, open) && Open(open, limit)
    requires forall f :: f in frames ==> |f.payload| <= limit
    ensures var s' := RunFrames(s, frames, limit);
            && s'.closed == (HasClose(frames) || !GoodData(open + Data(frames), limit))
            && (!s'.closed ==> Messages(s'.log) == Messages(s.log) + Reassembled(open + Data(frames)))
    decreases |frames|, 0
  {
    hide Process, Messages, Reassembled, GoodData, Payloads, GoodGroup, Completes, HasClose, Data, Open, IsControl;
    if frames == [] {
      NoFramesNoClose();
      assert open + [] == open;
      OpenGroup(open, limit);
    } else {
      var f, rest := frames[0], frames[1..];
      assert f in frames && forall g :: g in rest ==> g in frames;
      CloseSplit(frames);
      DataCons(open, frames);
      if f.opcode.Close? {
        CloseCloses(s, f, limit);
      } else if IsControl(f.opcode) {
        ControlStep(s, open, f, limit);
        ReassemblyFrom(Process(s, f.fin, f.opcode, f.payload, limit), open, rest, limit);
      } else {
        ReassemblyData(s, open, f, rest, limit);
      }
    }
  }

  lemma {:induction false} ReassemblyData(s: State, open: seq<Frame>, f: Frame, rest: seq<Frame>, limit: nat)
    requires Holding(s, open) && Open(open, limit) && !IsControl(f.opcode) && |f.payload| <= limit
    requires forall g :: g in rest ==> |g.payload| <= limit
    ensures var s' := RunFrames(Process(s, f.fin, f.opcode, f.payload, limit), rest, limit);
            && (s'.closed || !HasClose(rest))
            && s'.closed == (HasClose(rest) || !GoodData(open + [f] + Data(rest), limit))
            && (!s'.closed ==> Messages(s'.log) == Messages(s.log) + Reassembled(open + [f] + Data(rest)))
    decreases |rest|, 1
  {
    hide Process, Messages, Reassembled, GoodData, Holding, Payloads, GoodGroup;
    var s1 := Process(s, f.fin, f.opcode, f.payload, limit);
    var group := open + [f];
    DataStep(s, open, f, limit);
    if f.fin {
      GoodDataAfter(open, f, Data(rest), limit);
      if !s1.closed {
        OpenNothing(limit);
        MessagesSnoc(s.log, Message(group[0].opcode, Payloads(group)));
        assert [] + Data(rest) == Data(rest);
        ReassemblyFrom(s1, [], rest, limit);
      }
    } else if s1.closed {
      BrokenStaysBroken(group, Data(rest), limit);
    } else {
      ReassemblyFrom(s1, group, rest, limit);
    }
  }

  lemma OpenNothing(limit: nat)
    ensures Open([], limit)
  {
  }

  lemma OpenGroup(open: seq<Frame>, limit: nat)
    requires Open(open, limit)
    ensures GoodData(open, limit) && Reassembled(open) == []
  {
    FirstFinNone(open);
  }

  lemma CloseSplit(frames: seq<Frame>)
    requires frames != []
    ensures HasClose(frames) <==> frames[0].opcode.Close? || HasClose(frames[1..])
  {
    if HasClose(frames[1..]) {
      var i :| 0 <= i < |frames[1..]| && frames[1..][i].opcode.Close?;
      assert frames[i + 1].opcode.Close?;
    }
    if HasClose(frames) && !frames[0].opcode.Close? {
      var i :| 0 <= i < |frames| && frames[i].opcode.Close?;
      assert frames[1..][i - 1].opcode.Close?;
    }
  }

  lemma NoFramesNoClose()
    ensures !HasClose([]) && Data([]) == []
  {
  }

  lemma DataCons(open: seq<Frame>, frames: seq<Frame>)
    requires frames != []
    ensures IsControl(frames[0].opcode) ==> Data(frames) == Data(frames[1..])
    ensures !IsControl(frames[0].opcode) ==> open + Data(frames) == open + [frames[0]] + Data(frames[1..])
  {
    assert [] + Data(frames[1..]) == Data(frames[1..]);
  }

  lemma CloseCloses(s: State, f: Frame, limit: nat)
    requires f.opcode.Close?
    ensures Process(s, f.fin, f.opcode, f.payload, limit).closed
  {
  }

  /** Pings and pongs between fragments do not disturb the message. */
  lemma ControlStep(s: State, open: seq<Frame>, f: Frame, limit: nat)
    requires Holding(s, open) && IsControl(f.opcode) && !f.opcode.Close?
    ensures var s' := Process(s, f.fin, f.opcode, f.payload, limit);
            Holding(s', open) && Messages(s'.log) == Messages(s.log)
  {
    MessagesSnoc(s.log, SendPong(f.payload));
  }

  // ---------------------------------------------------------------- what is answered, and how it ends

  function Pings(frames: seq<Frame>): seq<seq<byte>> {
    if frames == [] then []
    else (if frames[0].opcode.Ping? then [frames[0].payload] else []) + Pings(frames[1..])
  }

  function Pongs(log: seq<Event>): seq<seq<byte>> {
    if log == [] then []
    else Pongs(log[..|log| - 1]) + if log[|log| - 1].SendPong? then [log[|log| - 1].payload] else []
  }

  lemma PongsSnoc(log: seq<Event>, e: Event)
    ensures Pongs(log + [e]) == Pongs(log) + if e.SendPong? then [e.payload] else []
  {
    assert (log + [e])[..|log|] == log;
  }

  /** The trailing data frames that no final frame has completed. */
  function Unfinished(data: seq<Frame>): seq<Frame>
    decreases |data|
  {
    var k := FirstFin(data);
    if k == |data| then data else Unfinished(data[k + 1..])
  }

  /** The status for a Close frame: the peer's own, if it is a permitted one with a readable reason. */
  function CloseStatus(payload: seq<byte>): nat {
    if payload == [] then 1000
    else if |payload| > 1 && ValidCloseCode(FromBigEndian(payload[..2])) && Utf8.WellFormed(payload[2..])
    then FromBigEndian(payload[..2])
    else 1002
  }

  /** The status for the frame that ends a connection, given the message it found unfinished. */
  function Status(open: seq<Frame>, f: Frame, limit: nat): nat {
    if f.opcode.Close? then CloseStatus(f.payload)
    else if (open == []) == f.opcode.Continuation? then 1002
    else if |Payloads(open + [f])| > limit then 1009
    else 1007
  }

  ghost predicate EndsWith(before: seq<Event>, log: seq<Event>, code: nat) {
    exists reason :: log == before + [SendClose(code, reason)] + [Notified(code, reason)]
  }

  lemma CloseEnds(s: State, code: nat, reason: Reason)
    requires !s.notified
    ensures EndsWith(s.log, CloseWith(s, code, reason).log, code)
  {
  }

  /** A frame ends a connection with the status its fault calls for. */
  lemma ClosingStatus(s: State, open: seq<Frame>, f: Frame, limit: nat)
    requires Holding(s, open) && Open(open, limit) && !s.notified && |f.payload| <= limit
    requires Process(s, f.fin, f.opcode, f.payload, limit).closed
    ensures EndsWith(s.log, Process(s, f.fin, f.opcode, f.payload, limit).log, Status(open, f, limit))
  {
    hide Utf8.WellFormed, FromBigEndian, ValidCloseCode, Payloads, EndsWith;
    PayloadsSnoc(open, f);
    var e := Process(s, f.fin, f.opcode, f.payload, limit).log[|s.log|];
    CloseEnds(s, e.code, e.reason);
    if open == [] { PayloadsOfNothing(); }
  }

  lemma OpenStep(s: State, f: Frame, limit: nat)
    requires !s.closed && !s.notified && !Process(s, f.fin, f.opcode, f.payload, limit).closed
    ensures var s' := Process(s, f.fin, f.opcode, f.payload, limit);
            && !s'.notified
            && Pongs(s'.log) == Pongs(s.log) + if f.opcode.Ping? then [f.payload] else []
  {
    hide Utf8.WellFormed, FromBigEndian, ValidCloseCode, Pongs;
    var s' := Process(s, f.fin, f.opcode, f.payload, limit);
    if |s'.log| > |s.log| { PongsSnoc(s.log, s'.log[|s.log|]); }
    assert Pongs(s.log) + [] == Pongs(s.log);
  }

  lemma UnfinishedAfter(open: seq<Frame>, f: Frame, rest: seq<Frame>)
    requires (forall i :: 0 <= i < |open| ==> !open[i].fin) && f.fin
    ensures Unfinished(open + [f] + rest) == Unfinished(rest)
  {
    FirstFinAfter(open, f, rest);
    assert (open + [f] + rest)[|open| + 1..] == rest;
  }

  /** While the connection is open, it holds exactly the unfinished message. */
  lemma {:induction false} HoldsUnfinished(s: State, open: seq<Frame>, frames: seq<Frame>, limit: nat)
    requires Holding(s, open) && Open(open, limit)
    requires forall f :: f in frames ==> |f.payload| <= limit
    requires !RunFrames(s, frames, limit).closed
    ensures var left := Unfinished(open + Data(frames));
            Holding(RunFrames(s, frames, limit), left) && Open(left, limit)
    decreases |frames|
  {
    hide Process, Payloads, GoodGroup, Completes, Data, IsControl, Unfinished;
    if frames == [] {
      NoFramesNoClose();
      assert open + [] == open;
      assert Unfinished(open) == open by { FirstFinNone(open); UnfinishedNone(open); }
    } else {
      var f, rest := frames[0], frames[1..];
      assert f in frames && forall g :: g in rest ==> g in frames;
      DataCons(open, frames);
      var s1 := Process(s, f.fin, f.opcode, f.payload, limit);
      if IsControl(f.opcode) {
        if f.opcode.Close? { CloseCloses(s, f, limit); }
        ControlStep(s, open, f, limit);
        HoldsUnfinished(s1, open, rest, limit);
      } else {
        DataStep(s, open, f, limit);
        CompletesIsGood(open, f, limit);
        if f.fin {
          OpenNothing(limit);
          UnfinishedAfter(open, f, Data(rest));
          assert [] + Data(rest) == Data(rest);
          HoldsUnfinished(s1, [], rest, limit);
        } else {
          HoldsUnfinished(s1, open + [f], rest, limit);
        }
      }
    }
  }

  lemma UnfinishedNone(open: seq<Frame>)
    requires FirstFin(open) == |open|
    ensures Unfinished(open) == open
  {
  }

  lemma CompletesIsGood(open: seq<Frame>, f: Frame, limit: nat)
    requires Open(open, limit)
    ensures !f.fin && Completes(open + [f], limit, f.fin) ==> Open(open + [f], limit)
  {
    hide GoodGroup;
  }

  /** Frames are accepted until one closes the connection; that one delivers nothing. */
  lemma {:induction false} AcceptedPrefix(s: State, frames: seq<Frame>, limit: nat) returns (k: nat)
    requires !s.closed && !s.notified
    ensures k <= |frames|
    ensures var s' := RunFrames(s, frames[..k], limit);
            && !s'.closed && !s'.notified && Pongs(s'.log) == Pongs(s.log) + Pings(frames[..k])
            && (k < |frames| ==>
                  var last := Process(s', frames[k].fin, frames[k].opcode, frames[k].payload, limit);
                  last.closed && RunFrames(s, frames, limit) == last == RunFrames(s, frames[..k + 1], limit))
    decreases |frames|
  {
    hide Process, Pongs;
    if frames == [] {
      k := 0;
      assert Pongs(s.log) + [] == Pongs(s.log);
    } else {
      var f := frames[0];
      var s1 := Process(s, f.fin, f.opcode, f.payload, limit);
      if s1.closed {
        k := 0;
        assert Pongs(s.log) + [] == Pongs(s.log);
        assert RunFrames(s1, frames[1..], limit) == s1;
        assert frames[..1][0] == f && RunFrames(s1, frames[..1][1..], limit) == s1;
      } else {
        OpenStep(s, f, limit);
        var n := AcceptedPrefix(s1, frames[1..], limit);
        k := n + 1;
        assert frames[..k][0] == f && frames[..k][1..] == frames[1..][..n];
        if k < |frames| { assert frames[..k + 1][0] == f && frames[..k + 1][1..] == frames[1..][..n + 1]; }
      }
    }
  }

  lemma {:induction false} FramesFit(input: seq<byte>, limit: nat)
    ensures forall f :: f in FramesOf(input, limit) ==> |f.payload| <= limit
    decreases |input|
  {
    var r := ParseFrame(input, limit);
    if r.Whole? { FramesFit(input[r.total..], limit); }
  }

  lemma EndingMessages(s: State, verdict: Parse)
    ensures Messages(Ending(s, verdict).log) == Messages(s.log)
  {
    if verdict.Bad? { MessagesOfClose(s, verdict.code, Local(verdict.reason)); }
  }

  /** `k` frames keep the connection open, and the next one, if there is one, does not. */
  ghost predicate Breaks(frames: seq<Frame>, k: nat, limit: nat)
    requires k <= |frames|
  {
    && !HasClose(frames[..k]) && GoodData(Data(frames[..k]), limit)
    && (k < |frames| ==> HasClose(frames[..k + 1]) || !GoodData(Data(frames[..k + 1]), limit))
  }

  /**
   The meaning of a stream. Frames count up to the first Close frame or the first one that breaks the nesting,
   the size limit or the encoding. The messages delivered are the reassembly of those frames, their pings
   are answered in order, and what ended the connection decides the status the handler hears last. It
   stays open exactly when nothing did.
   */
  lemma StreamMeaning(input: seq<byte>, limit: nat) returns (k: nat)
    ensures var frames := FramesOf(input, limit);
            var tail := ParseFrame(Remainder(input, limit), limit);
            var s := Run(INITIAL, input, limit).state;
            && k <= |frames| && Breaks(frames, k, limit)
            && Messages(s.log) == Reassembled(Data(frames[..k]))
            && (s.closed <==> k < |frames| || tail.Bad?)
            && exists before :: Pongs(before) == Pings(frames[..k]) &&
                 (if k < |frames| then EndsWith(before, s.log, Status(Unfinished(Data(frames[..k])), frames[k], limit))
                  else if tail.Bad? then EndsWith(before, s.log, tail.code)
                  else s.log == before)
  {
    hide Run, RunFrames, FramesOf, Remainder, ParseFrame, Messages, Reassembled, GoodData, HasClose, Data, Process,
         Unfinished, Status, EndsWith, Pongs, Pings, Payloads;
    var frames := FramesOf(input, limit);
    var tail := ParseFrame(Remainder(input, limit), limit);
    FramesFit(input, limit);
    RunByFrames(INITIAL, input, limit);
    EndingMessages(RunFrames(INITIAL, frames, limit), tail);
    k := AcceptedPrefix(INITIAL, frames, limit);
    var s := RunFrames(INITIAL, frames[..k], limit);
    StreamFromStart(frames[..k], limit);
    assert Pongs(INITIAL.log) + Pings(frames[..k]) == Pings(frames[..k]) by { NoPongs(); }
    if k < |frames| {
      StreamFromStart(frames[..k + 1], limit);
      ClosingDeliversNothing(s, frames[k], limit);
      LastStatus(frames, k, limit);
    } else {
      assert frames[..k] == frames;
      if tail.Bad? { CloseEnds(s, tail.code, Local(tail.reason)); }
    }
  }

  lemma NoPongs()
    ensures Pongs([]) == []
  {
  }

  lemma LastStatus(frames: seq<Frame>, k: nat, limit: nat)
    requires k < |frames| && forall f :: f in frames ==> |f.payload| <= limit
    requires var s := RunFrames(INITIAL, frames[..k], limit);
             !s.closed && !s.notified && Process(s, frames[k].fin, frames[k].opcode, frames[k].payload, limit).closed
    ensures var s := RunFrames(INITIAL, frames[..k], limit);
            EndsWith(s.log, Process(s, frames[k].fin, frames[k].opcode, frames[k].payload, limit).log,
                     Status(Unfinished(Data(frames[..k])), frames[k], limit))
  {
    hide RunFrames, Process, Status, EndsWith, Unfinished, Data, GoodGroup;
    OpenNothing(limit);
    PayloadsOfNothing();
    assert [] + Data(frames[..k]) == Data(frames[..k]);
    HoldsUnfinished(INITIAL, [], frames[..k], limit);
    ClosingStatus(RunFrames(INITIAL, frames[..k], limit), Unfinished(Data(frames[..k])), frames[k], limit);
  }

  lemma StreamFromStart(frames: seq<Frame>, limit: nat)
    requires forall f :: f in frames ==> |f.payload| <= limit
    ensures var s := RunFrames(INITIAL, frames, limit);
            && s.closed == (HasClose(frames) || !GoodData(Data(frames), limit))
            && (!s.closed ==> Messages(s.log) == Reassembled(Data(frames)))
  {
    hide RunFrames, Reassembled, GoodData, HasClose, Data;
    OpenNothing(limit);
    PayloadsOfNothing();
    ReassemblyFrom(INITIAL, [], frames, limit);
    assert [] + Data(frames) == Data(frames);
    assert Messages(INITIAL.log) == [];
    assert [] + Reassembled(Data(frames)) == Reassembled(Data(frames));
  }

  // ---------------------------------------------------------------- safety of every run

  predicate GoodMessage(e: Event, limit: nat) {
    e.Message? ==>
      |e.payload| <= limit && (e.opcode.Text? || e.opcode.Binary?) && (e.opcode.Text? ==> Utf8.WellFormed(e.payload))
  }

  /** Messages are within the limit and well encoded; the close notification is unique and comes last. */
  predicate Safe(s: State, limit: nat) {
    && (forall i :: 0 <= i < |s.log| ==> GoodMessage(s.log[i], limit))
    && (forall i :: 0 <= i < |s.log| ==> s.log[i].Notified? ==> i == |s.log| - 1 && s.closed)
    && s.closed == s.notified
    && (s.closed ==> s.log != [] && s.log[|s.log| - 1].Notified?)
    && (!s.closed && s.fragmented ==> |s.payload| <= limit && (s.opcode.Text? || s.opcode.Binary?))
  }

  lemma ProcessIsSafe(s: State, fin: bool, opcode: Opcode, payload: seq<byte>, limit: nat)
    requires Safe(s, limit) && !s.closed && |payload| <= limit
    ensures Safe(Process(s, fin, opcode, payload, limit), limit)
  {
    hide Utf8.WellFormed, ValidCloseCode, FromBigEndian;
    var s' := Process(s, fin, opcode, payload, limit);
    if s'.closed {
      var e := s'.log[|s.log|];
      CloseIsSafe(s, e.code, e.reason, limit);
    }
  }

  lemma CloseIsSafe(s: State, code: nat, reason: Reason, limit: nat)
    requires Safe(s, limit) && !s.closed
    ensures Safe(CloseWith(s, code, reason), limit)
  {
  }

  lemma {:induction false} RunIsSafe(s: State, input: seq<byte>, limit: nat)
    requires Safe(s, limit)
    ensures Safe(Run(s, input, limit).state, limit)
    decreases |input|
  {
    hide Process;
    if !s.closed {
      var r := ParseFrame(input, limit);
      if r.Whole? {
        ProcessIsSafe(s, r.fin, r.opcode, r.payload, limit);
        RunIsSafe(Process(s, r.fin, r.opcode, r.payload, limit), input[r.total..], limit);
      }
    }
  }

  // ---------------------------------------------------------------- what a client sends

  type Key = k: seq<byte> | |k| == 4 witness [0, 0, 0, 0]

  /** The payload of one frame, and the key it is masked with. */
  datatype Piece = Piece(payload: seq<byte>, key: Key)

  /** What may come between the first and the last frame of a message that is cut. */
  datatype Between = More(piece: Piece) | PingBetween(piece: Piece)

  /** A text or binary message, in one frame or cut into two and more. */
  datatype Sent =
    | Single(opcode: Opcode, piece: Piece)
    | Cut(opcode: Opcode, first: Piece, middle: seq<Between>, last: Piece)

  function Part(b: Between): seq<byte> { if b.More? then b.piece.payload else [] }

  function Parts(middle: seq<Between>): seq<byte> {
    if middle == [] then [] else Part(middle[0]) + Parts(middle[1..])
  }

  function Body(m: Sent): seq<byte> {
    match m
    case Single(_, piece) => piece.payload
    case Cut(_, first, middle, last) => first.payload + Parts(middle) + last.payload
  }

  function PongFor(b: Between): seq<Event> { if b.PingBetween? then [SendPong(b.piece.payload)] else [] }

  function PongsFor(middle: seq<Between>): seq<Event> {
    if middle == [] then [] else PongFor(middle[0]) + PongsFor(middle[1..])
  }

  function Events(m: Sent): seq<Event> {
    (if m.Cut? then PongsFor(m.middle) else []) + [Message(m.opcode, Body(m))]
  }

  predicate Deliverable(m: Sent, limit: nat) {
    && (m.opcode.Text? || m.opcode.Binary?)
    && |Body(m)| <= limit && |Body(m)| < LENGTH_LIMIT && (m.opcode.Text? ==> Utf8.WellFormed(Body(m)))
    && (m.Cut? ==> ShortPings(m.middle, limit))
  }

  predicate ShortPings(middle: seq<Between>, limit: nat) {
    forall i :: 0 <= i < |middle| ==> ShortPing(middle[i], limit)
  }

  predicate ShortPing(b: Between, limit: nat) { b.PingBetween? ==> |b.piece.payload| <= Min(125, limit) }

  /** A frame as the session writes it, its final bit cleared unless `fin`, masked by a client. */
  ghost function FrameOnTheWire(fin: bool, op: Opcode, piece: Piece): seq<byte> {
    MaskedEncoding(fin, op, piece.payload, piece.key);
    ClientMask(Fragment(Encode(op, piece.payload), fin), piece.key)
  }

  ghost function BetweenOnTheWire(b: Between): seq<byte> {
    if b.More? then FrameOnTheWire(false, Continuation, b.piece) else FrameOnTheWire(true, Ping, b.piece)
  }

  ghost function MiddleOnTheWire(middle: seq<Between>): seq<byte> {
    if middle == [] then [] else BetweenOnTheWire(middle[0]) + MiddleOnTheWire(middle[1..])
  }

  ghost function OnTheWire(m: Sent): seq<byte> {
    match m
    case Single(op, piece) => FrameOnTheWire(true, op, piece)
    case Cut(op, first, middle, last) =>
      FrameOnTheWire(false, op, first) + MiddleOnTheWire(middle) + FrameOnTheWire(true, Continuation, last)
  }

  lemma FrameIsProcessed(s: State, fin: bool, op: Opcode, piece: Piece, rest: seq<byte>, limit: nat)
    requires !s.closed && |piece.payload| <= limit && |piece.payload| < LENGTH_LIMIT
    requires IsControl(op) ==> fin && |piece.payload| <= 125
    ensures Run(s, FrameOnTheWire(fin, op, piece) + rest, limit) ==
            Run(Process(s, fin, op, piece.payload, limit), rest, limit)
  {
    hide Encode, Fragment, ClientMask, HasHeader, ParseFrame, Process;
    FrameRoundTrip(fin, op, piece.payload, piece.key, rest, limit);
    var frame := FrameOnTheWire(fin, op, piece);
    assert (frame + rest)[|frame|..] == rest;
  }

  /** The state after frames in the middle of a message: continuations are gathered, pings are answered. */
  function Gathered(s: State, part: seq<byte>, pongs: seq<Event>): State {
    s.(payload := s.payload + part, log := s.log + pongs)
  }

  lemma BetweenStep(s: State, b: Between, rest: seq<byte>, limit: nat)
    requires !s.closed && s.fragmented && ShortPing(b, limit)
    requires |s.payload| + |Part(b)| <= limit && |Part(b)| < LENGTH_LIMIT
    ensures Run(s, BetweenOnTheWire(b) + rest, limit) == Run(Gathered(s, Part(b), PongFor(b)), rest, limit)
  {
    hide Run, FrameOnTheWire, Utf8.WellFormed;
    if b.More? {
      FrameIsProcessed(s, false, Continuation, b.piece, rest, limit);
      assert s.log + [] == s.log;
    } else {
      FrameIsProcessed(s, true, Ping, b.piece, rest, limit);
      assert s.payload + [] == s.payload;
    }
  }

  lemma {:induction false} MiddleIsGathered(s: State, middle: seq<Between>, rest: seq<byte>, limit: nat)
    requires !s.closed && s.fragmented && ShortPings(middle, limit)
    requires |s.payload| + |Parts(middle)| <= limit && |Parts(middle)| < LENGTH_LIMIT
    ensures Run(s, MiddleOnTheWire(middle) + rest, limit) ==
            Run(Gathered(s, Parts(middle), PongsFor(middle)), rest, limit)
    decreases |middle|
  {
    hide Run, BetweenOnTheWire, Part, PongFor, ShortPing;
    if middle == [] {
      assert [] + rest == rest && s.payload + [] == s.payload && s.log + [] == s.log;
    } else {
      var b, more := middle[0], middle[1..];
      var tail := MiddleOnTheWire(more) + rest;
      assert MiddleOnTheWire(middle) + rest == BetweenOnTheWire(b) + tail;
      BetweenStep(s, b, tail, limit);
      var next := Gathered(s, Part(b), PongFor(b));
      MiddleIsGathered(next, more, rest, limit);
      assert next.payload + Parts(more) == s.payload + Parts(middle);
      assert next.log + PongsFor(more) == s.log + PongsFor(middle);
    }
  }

  /** Between messages nothing is gathered. */
  predicate Idle(s: State) { !s.closed && !s.fragmented && s.opcode.Continuation? && s.payload == [] }

  /**
   A message sent in one frame or cut into any number of fragments, with pings in between, each frame masked with a
   key of its own, is delivered once and whole, after the answers to the pings, whatever follows it.
   */
  lemma SentIsDelivered(s: State, m: Sent, rest: seq<byte>, limit: nat)
    requires Idle(s) && Deliverable(m, limit)
    ensures Run(s, OnTheWire(m) + rest, limit) == Run(s.(log := s.log + Events(m)), rest, limit)
  {
    hide Run, FrameOnTheWire, MiddleOnTheWire, Utf8.WellFormed, Parts, PongsFor;
    match m
    case Single(op, piece) =>
      FrameIsProcessed(s, true, op, piece, rest, limit);
      assert s.log + Events(m) == s.log + [Message(op, piece.payload)];
    case Cut(op, first, middle, last) =>
      var end := FrameOnTheWire(true, Continuation, last) + rest;
      var tail := MiddleOnTheWire(middle) + end;
      assert OnTheWire(m) + rest == FrameOnTheWire(false, op, first) + tail;
      FrameIsProcessed(s, false, op, first, tail, limit);
      var begun := s.(fragmented := true, opcode := op, payload := first.payload);
      MiddleIsGathered(begun, middle, end, limit);
      var gathered := Gathered(begun, Parts(middle), PongsFor(middle));
      FrameIsProcessed(gathered, true, Continuation, last, rest, limit);
      assert gathered.log + [Message(op, Body(m))] == s.log + Events(m);
  }

  ghost function AllOnTheWire(ms: seq<Sent>): seq<byte> {
    if ms == [] then [] else OnTheWire(ms[0]) + AllOnTheWire(ms[1..])
  }

  function AllEvents(ms: seq<Sent>): seq<Event> {
    if ms == [] then [] else Events(ms[0]) + AllEvents(ms[1..])
  }

  /** Messages sent one after the other, cut or not, are delivered one after the other, with nothing left over. */
  lemma {:induction false} StreamIsDelivered(s: State, ms: seq<Sent>, limit: nat)
    requires Idle(s) && forall i :: 0 <= i < |ms| ==> Deliverable(ms[i], limit)
    ensures Run(s, AllOnTheWire(ms), limit) == Outcome(s.(log := s.log + AllEvents(ms)), [])
    decreases |ms|
  {
    hide Run, OnTheWire, Deliverable, Events;
    if ms == [] {
      NothingNeedsMore(s, limit);
      assert s.log + [] == s.log;
    } else {
      var next := s.(log := s.log + Events(ms[0]));
      SentIsDelivered(s, ms[0], AllOnTheWire(ms[1..]), limit);
      StreamIsDelivered(next, ms[1..], limit);
      assert next.log + AllEvents(ms[1..]) == s.log + AllEvents(ms);
    }
  }

  /** The same when the bytes arrive in any pieces. */
  lemma DeliveredInPieces(ms: seq<Sent>, pieces: seq<seq<byte>>, limit: nat)
    requires Flatten(pieces) == AllOnTheWire(ms) && forall i :: 0 <= i < |ms| ==> Deliverable(ms[i], limit)
    ensures FeedPieces(INITIAL, [], pieces, limit) == INITIAL.(log := AllEvents(ms))
  {
    hide Run, FeedPieces, OnTheWire, Deliverable, Events;
    PiecesDoNotMatter(pieces, limit);
    StreamIsDelivered(INITIAL, ms, limit);
    assert [] + AllEvents(ms) == AllEvents(ms);
  }

  lemma NothingNeedsMore(s: State, limit: nat)
    requires !s.closed
    ensures Run(s, [], limit) == Outcome(s, [])
  {
  }
}
