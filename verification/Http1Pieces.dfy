/**
 Pipelined requests with either framing, in pieces: exactly which cuts a client must avoid. The parser does not
 remember that it has read a last chunk. A feed that ends behind that chunk's line and before the end of its trailer
 section makes it read the first unread line as a chunk size, which does no harm only if that is zero.
 */
module Http1Pieces {
  import opened Common
  import opened Http1Parser
  import opened Http1Streams
  import opened Http1Messages

  // ---------------------------------------------------------------- cuts inside trailers

  /** The trailer lines not completely read when a trailer section is cut after `j` characters. */
  function UnreadLines(lines: seq<string>, j: nat): seq<string> {
    if lines == [] || j < |lines[0]| + 2 then lines else UnreadLines(lines[1..], j - |lines[0]| - 2)
  }

  /** How many characters of the first unread line are there. */
  function Into(lines: seq<string>, j: nat): (n: nat)
    ensures n <= j
  {
    if lines == [] || j < |lines[0]| + 2 then j else Into(lines[1..], j - |lines[0]| - 2)
  }

  /** The part of the first unread line that is there. */
  function Partial(lines: seq<string>, j: nat): string
    requires Into(lines, j) <= |TrailersText(UnreadLines(lines, j))|
  {
    TrailersText(UnreadLines(lines, j))[..Into(lines, j)]
  }

  /** The first unread line, which is the blank one when no trailer line is left. */
  function FirstUnread(lines: seq<string>, j: nat): string {
    var left := UnreadLines(lines, j);
    if left == [] then "" else left[0]
  }

  /** Where a cut falls: outside trailer sections, or after `j` characters of one, before the requests `left`. */
  datatype Spot = Outside | Inside(lines: seq<string>, j: nat, left: seq<Message>)

  function SpotOf(ms: seq<Message>, k: nat): Spot {
    if ms == [] then Outside
    else
      var n := |MessageText(ms[0])|;
      if k >= n then SpotOf(ms[1..], k - n)
      else
        match ms[0].framing
        case Sized(_) => Outside
        case Chunks(_, trailers) =>
          var size := |TrailersText(trailers)|;
          if k + size >= n then Inside(trailers, k + size - n, ms[1..]) else Outside
  }

  /** A cut does harm when the first unread line does not read as chunk size zero. */
  predicate Harms(spot: Spot) { spot.Inside? && !ReadsZero(FirstUnread(spot.lines, spot.j)) }

  predicate BadCut(ms: seq<Message>, k: nat) { Harms(SpotOf(ms, k)) }

  /** None of the cuts between `pieces`, the first of which begins at `k`, is a bad one. */
  predicate GoodCuts(ms: seq<Message>, k: nat, pieces: seq<string>)
    decreases |pieces|
  {
    pieces == [] || (!BadCut(ms, k + |pieces[0]|) && GoodCuts(ms, k + |pieces[0]|, pieces[1..]))
  }

  lemma {:induction false} UnreadIsSuffix(lines: seq<string>, j: nat)
    requires TrailerLines(lines) && j < |TrailersText(lines)|
    ensures var left, into := UnreadLines(lines, j), Into(lines, j);
            && TrailerLines(left) && into <= j && into < |TrailersText(left)|
            && TrailersText(lines)[j - into..] == TrailersText(left)
            && into < |FirstUnread(lines, j)| + 2
    decreases |lines|
  {
    if lines != [] && j >= |lines[0]| + 2 {
      var head, more := lines[0] + "\r\n", TrailersText(lines[1..]);
      UnreadIsSuffix(lines[1..], j - |head|);
      var into := Into(lines, j);
      assert (head + more)[j - into..] == more[j - |head| - into..];
    }
  }

  /** Skipping stops in front of the first unread line. */
  lemma {:induction false} TrailersCut(lines: seq<string>, j: nat)
    requires TrailerLines(lines) && j < |TrailersText(lines)|
    ensures SkipTrailers(TrailersText(lines)[..j], 0) == Trailers(j - Into(lines, j), false)
    decreases |lines|
  {
    var text := TrailersText(lines)[..j];
    var first := if lines == [] then "" else lines[0];
    if j < |first| + 2 {
      assert text == (first + "\r\n")[..j];
      NoLineYet(first, j);
    } else {
      hide SkipTrailers;
      var more := TrailersText(lines[1..])[..j - |lines[0]| - 2];
      assert text == lines[0] + "\r\n" + more;
      TrailersCut(lines[1..], j - |lines[0]| - 2);
      SkipOne(lines[0], more);
    }
  }

  // ---------------------------------------------------------------- parts of a token need more

  lemma NoLineYet(line: string, k: nat)
    requires OneLine(line) && k < |line| + 2
    ensures var p := (line + "\r\n")[..k]; FindCrLf(p, 0) == |p|
  {
    var p := (line + "\r\n")[..k];
    forall i | 0 <= i < |p| ensures !CrLfAt(p, i) {
      if i < |line| { assert p[i] == line[i] && line[i] in line; }
    }
    FindCrLfUnique(p, 0, |p|);
  }

  lemma Waits(s: State, p: string)
    requires Advance(s, p).NeedMore?
    ensures Run(s, p) == Outcome(s, p, false)
  {
  }

  lemma LineWaits(s: State, line: string, k: nat)
    requires OneLine(line) && k < |line| + 2 && (s.phase.RequestLine? || s.phase.Headers?)
    ensures var p := (line + "\r\n")[..k]; Run(s, p) == Outcome(s, p, false)
  {
    NoLineYet(line, k);
    Waits(s, (line + "\r\n")[..k]);
  }

  lemma ChunkWaits(s: State, piece: string, k: nat)
    requires s.phase.Body? && s.chunked && 0 < |piece| < SIZE_LIMIT && k < |ChunkText(piece)|
    ensures var p := ChunkText(piece)[..k]; Run(s, p) == Outcome(s, p, false)
  {
    hide Hex, Stoull;
    var size, p := Hex(|piece|), ChunkText(piece)[..k];
    HexRoundTrip(|piece|);
    if k < |size| + 2 {
      assert p == (size + "\r\n")[..k];
      NoLineYet(size, k);
    } else {
      assert p == size + "\r\n" + p[|size| + 2..];
      ReadLine(size, p[|size| + 2..]);
    }
    Waits(s, p);
  }

  /** The end of a body cut short: before its line is complete the parser waits, and after that it halts. */
  lemma EndCut(s: State, line: string, trailers: seq<string>, k: nat)
    requires s.phase.Body? && s.chunked && OneLine(line) && ReadsZero(line) && TrailerLines(trailers)
    requires k < |EndText(line, trailers)|
    ensures var p, n := EndText(line, trailers)[..k], |line| + 2;
            if k < n then Run(s, p) == Outcome(s, p, false)
            else Into(trailers, k - n) <= |TrailersText(UnreadLines(trailers, k - n))|
                 && Run(s, p) == Outcome(s, Partial(trailers, k - n), true)
  {
    hide SkipTrailers, TrailersText, UnreadLines, Into, ReadsZero, Run, Advance;
    var p, n, text := EndText(line, trailers)[..k], |line| + 2, TrailersText(trailers);
    if k < n {
      assert p == (line + "\r\n")[..k];
      EndWaits(s, line, k);
    } else {
      var j := k - n;
      var into := Into(trailers, j);
      TrailersCut(trailers, j);
      UnreadIsSuffix(trailers, j);
      EndHalts(s, line, text[..j], j - into);
      Seam(line + "\r\n", text, j, into);
    }
  }

  lemma Seam(head: string, text: string, j: nat, into: nat)
    requires into <= j <= |text|
    ensures (head + text)[..|head| + j] == head + text[..j]
    ensures (head + text[..j])[|head| + (j - into)..] == text[j - into..][..into]
  {
  }

  lemma EndWaits(s: State, line: string, k: nat)
    requires s.phase.Body? && s.chunked && OneLine(line) && k < |line| + 2
    ensures var p := (line + "\r\n")[..k]; Run(s, p) == Outcome(s, p, false)
  {
    NoLineYet(line, k);
    Waits(s, (line + "\r\n")[..k]);
  }

  lemma EndHalts(s: State, line: string, part: string, end: nat)
    requires s.phase.Body? && s.chunked && OneLine(line) && ReadsZero(line)
    requires SkipTrailers(part, 0) == Trailers(end, false)
    ensures end <= |part|
    ensures Run(s, line + "\r\n" + part) == Outcome(s, (line + "\r\n" + part)[|line| + 2 + end..], true)
  {
    hide Advance, Run, SkipTrailers, ReadsZero;
    EndHaltsStep(s, line, part, end);
    HaltRuns(s, line + "\r\n" + part, |line| + 2 + end);
  }

  lemma HaltRuns(s: State, input: string, used: nat)
    requires Advance(s, input) == Halt(s, used)
    ensures used <= |input| && Run(s, input) == Outcome(s, input[used..], true)
  {
    hide Advance;
  }

  lemma EndHaltsStep(s: State, line: string, part: string, end: nat)
    requires s.phase.Body? && s.chunked && OneLine(line) && ReadsZero(line)
    requires SkipTrailers(part, 0) == Trailers(end, false)
    ensures Advance(s, line + "\r\n" + part) == Halt(s, |line| + 2 + end)
  {
    hide SkipTrailers, Stoull, SizeText, FindCrLf;
    ReadLine(line, part);
    SkipShift(line + "\r\n", part, 0);
  }

  // ---------------------------------------------------------------- part of a message

  /** How far into a trailer section a text reaches that ends `distance` before its end. */
  function At(lines: seq<string>, distance: nat): Option<nat> {
    var size := |TrailersText(lines)|;
    if distance <= size then Some(size - distance) else None
  }

  /** What a run over part of a message comes to; `done` is the state the whole message leads to. */
  ghost predicate CutOutcome(o: Outcome, lines: seq<string>, at: Option<nat>, done: State) {
    if at.None? then !o.halted && !o.state.phase.Failed?
    else
      && o.halted && o.state.phase.Body? && o.state.chunked && Finish(o.state) == done
      && Into(lines, at.value) <= |TrailersText(UnreadLines(lines, at.value))| && o.rest == Partial(lines, at.value)
  }

  lemma {:induction false} ChunksCut(s: State, pieces: seq<string>, trailers: seq<string>, k: nat)
    requires s.phase.Body? && s.chunked && k < |ChunksText(pieces, trailers)| && TrailerLines(trailers)
    requires forall i :: 0 <= i < |pieces| ==> 0 < |pieces[i]| < SIZE_LIMIT
    ensures var text := ChunksText(pieces, trailers);
            CutOutcome(Run(s, text[..k]), trailers, At(trailers, |text| - k), Finish(AppendBody(s, Flatten(pieces))))
    decreases |pieces|
  {
    hide Run, ContentLengthOnly, Advance, ChunkText, AppendBody, Finish, ReadsZero, TrailersText;
    if pieces == [] {
      ZeroReadsZero();
      EndCut(s, "0", trailers, k);
      AppendShape(s, "");
    } else {
      var piece, chunk, more := pieces[0], ChunkText(pieces[0]), ChunksText(pieces[1..], trailers);
      var n, text := |chunk|, ChunksText(pieces, trailers);
      assert text == chunk + more;
      LongEnough(pieces[1..], trailers);
      hide ChunksText;
      if k < n {
        assert (chunk + more)[..k] == chunk[..k];
        ChunkWaits(s, piece, k);
      } else {
        var next := AppendBody(s, piece);
        AppendShape(s, piece);
        assert (chunk + more)[..k] == chunk + more[..k - n];
        ChunkStep(s, piece, more[..k - n]);
        GoLeads(s, chunk, more[..k - n], next);
        ChunksCut(next, pieces[1..], trailers, k - n);
        AppendBodyTwice(s, piece, Flatten(pieces[1..]));
      }
    }
  }

  lemma {:induction false} LongEnough(pieces: seq<string>, trailers: seq<string>)
    ensures |ChunksText(pieces, trailers)| >= |TrailersText(trailers)| + 3
    decreases |pieces|
  {
    if pieces != [] { LongEnough(pieces[1..], trailers); }
  }

  lemma {:induction false} HeadersCut(s: State, headers: seq<Header>, k: nat)
    requires s.phase.Headers? && LengthsParse(headers) && k < |HeadersText(headers)|
    requires forall i :: 0 <= i < |headers| ==> Plain(headers[i])
    ensures CutOutcome(Run(s, HeadersText(headers)[..k]), [], None, s)
    decreases |headers|
  {
    hide Run, ContentLengthOnly, Advance, Plain, AddHeader, OnHeaderLine, WithHeaders, LengthsParse, HeaderText,
        Announces;
    if headers == [] {
      assert "" + "\r\n" == "\r\n";
      LineWaits(s, "", k);
    } else {
      var h, more := headers[0], HeadersText(headers[1..]);
      var line := HeaderText(h) + "\r\n";
      assert HeadersText(headers) == line + more;
      HeaderLineStep(s, h);
      if k < |line| {
        assert (line + more)[..k] == line[..k];
        LineWaits(s, HeaderText(h), k);
      } else {
        var part := more[..k - |line|];
        assert (line + more)[..k] == HeaderText(h) + "\r\n" + part;
        assert headers == [h] + headers[1..];
        ThenHeaders(s, h, headers[1..]);
        OneHeader(s, h);
        var next := AddHeader(s, h.name, h.value).value;
        AddedShape(s, h);
        LineStep(s, HeaderText(h), part);
        GoLeads(s, line, part, next);
        HeadersCut(next, headers[1..], k - |line|);
      }
    }
  }

  lemma SizedCut(s: State, body: string, k: nat)
    requires s.phase.Body? && !s.chunked && s.contentLength == |body| && k < |body|
    ensures CutOutcome(Run(s, body[..k]), [], None, s)
  {
    Waits(s, body[..k]);
  }

  /** The state in which the body of a message is read, unless it has none. */
  function InBody(s: State, m: Message): State {
    WithHeaders(s.(phase := Headers, request := NO_REQUEST.(verb := m.verb, path := m.path)), m.headers).(phase := Body)
  }

  function Lines(framing: Framing): seq<string> { if framing.Chunks? then framing.trailers else [] }

  function AtOf(framing: Framing, distance: nat): Option<nat> {
    if framing.Chunks? then At(framing.trailers, distance) else None
  }

  lemma BodyCut(s: State, m: Message, k: nat)
    requires Ready(s) && Sendable(m) && k < |BodyText(m.framing)|
    ensures var text := BodyText(m.framing);
            && AfterHeaders(InBody(s, m).(phase := Headers)) == InBody(s, m)
            && CutOutcome(Run(InBody(s, m), text[..k]), Lines(m.framing), AtOf(m.framing, |text| - k), Handling(s, m))
  {
    hide Run, LastValue, LastAlive, SaysChunked, LengthsParse, Plain, ChunksText, At, CutOutcome, DeclaredLength;
    var t := InBody(s, m);
    assert NO_REQUEST.headers + m.headers == m.headers;
    match m.framing
    case Sized(body) =>
      SizedCut(t, body, k);
      OtherDone(Run(t, body[..k]), [], t, Handling(s, m));
    case Chunks(pieces, trailers) =>
      ChunksCut(t, pieces, trailers, k);
      assert "" + Flatten(pieces) == Flatten(pieces);
      assert Finish(AppendBody(t, Flatten(pieces))) == Handling(s, m);
  }

  /** Outside trailers the final state does not matter. */
  lemma OtherDone(o: Outcome, lines: seq<string>, a: State, b: State, others: seq<string> := [])
    requires CutOutcome(o, others, None, a)
    ensures CutOutcome(o, lines, None, b)
  {
  }

  lemma ChunkedHasBody(m: Message, distance: nat)
    ensures AtOf(m.framing, distance).Some? ==> distance <= |BodyText(m.framing)|
  {
    if m.framing.Chunks? { LongEnough(m.framing.pieces, m.framing.trailers); }
  }

  /** A message cut short halts the parser exactly inside its trailer section. */
  lemma MessageCut(s: State, m: Message, k: nat)
    requires Ready(s) && Sendable(m) && k < |MessageText(m)|
    ensures var text := MessageText(m);
            CutOutcome(Run(s, text[..k]), Lines(m.framing), AtOf(m.framing, |text| - k), Handling(s, m))
  {
    hide Run, ContentLengthOnly, Advance, WithHeaders, HeadersText, LineText, BodyText, OnRequestLine, Plain, AtOf,
         CutOutcome, Handling;
    var line, headers, body := LineText(m) + "\r\n", HeadersText(m.headers), BodyText(m.framing);
    var t := s.(phase := Headers, request := NO_REQUEST.(verb := m.verb, path := m.path));
    assert MessageText(m) == line + (headers + body);
    RequestLineStep(s, m);
    ChunkedHasBody(m, |MessageText(m)| - k);
    if k < |line| {
      assert MessageText(m)[..k] == line[..k];
      LineWaits(s, LineText(m), k);
      NotHalted(s, line[..k], Lines(m.framing), Handling(s, m));
    } else {
      var part := (headers + body)[..k - |line|];
      assert MessageText(m)[..k] == LineText(m) + "\r\n" + part;
      LineStep(s, LineText(m), part);
      GoLeads(s, line, part, t);
      RestCut(s, m, k - |line|);
    }
  }

  lemma NotHalted(s: State, p: string, lines: seq<string>, done: State)
    requires Run(s, p) == Outcome(s, p, false) && !s.phase.Failed?
    ensures CutOutcome(Run(s, p), lines, None, done)
  {
  }

  lemma RestCut(s: State, m: Message, k: nat)
    requires Ready(s) && Sendable(m) && k < |HeadersText(m.headers) + BodyText(m.framing)|
    ensures var t := s.(phase := Headers, request := NO_REQUEST.(verb := m.verb, path := m.path));
            var text := HeadersText(m.headers) + BodyText(m.framing);
            CutOutcome(Run(t, text[..k]), Lines(m.framing), AtOf(m.framing, |text| - k), Handling(s, m))
  {
    hide Run, ContentLengthOnly, Advance, HeadersText, BodyText, Plain, WithHeaders, AfterHeaders, AtOf, CutOutcome,
         Handling;
    var t := s.(phase := Headers, request := NO_REQUEST.(verb := m.verb, path := m.path));
    var headers, body := HeadersText(m.headers), BodyText(m.framing);
    ChunkedHasBody(m, |headers + body| - k);
    if k < |headers| {
      assert (headers + body)[..k] == headers[..k];
      HeadersCut(t, m.headers, k);
      OtherDone(Run(t, headers[..k]), Lines(m.framing), t, Handling(s, m));
    } else {
      var n := k - |headers|;
      assert (headers + body)[..k] == headers + body[..n];
      HeadersStep(t, m.headers, body[..n]);
      BodyCut(s, m, n);
      InBodyIs(s, m);
    }
  }

  lemma InBodyIs(s: State, m: Message)
    ensures InBody(s, m).(phase := Headers) ==
            WithHeaders(s.(phase := Headers, request := NO_REQUEST.(verb := m.verb, path := m.path)), m.headers)
  {
  }

  // ---------------------------------------------------------------- part of a stream

  /** A stream cut short halts the parser exactly inside a trailer section. */
  lemma {:induction false} StreamCut(s: State, ms: seq<Message>, k: nat)
    requires Ready(s) && (forall i :: 0 <= i < |ms| ==> Sendable(ms[i])) && k <= |StreamText(ms)|
    ensures SpotOf(ms, k).Outside? ==> CutOutcome(Run(s, StreamText(ms)[..k]), [], None, s)
    ensures SpotOf(ms, k).Inside? ==>
              InsideCut(Run(s, StreamText(ms)[..k]), SpotOf(ms, k), HandlingAll(s, ms), StreamText(ms)[k..])
    decreases |ms|
  {
    hide Run, MessageText, Handling, Sendable, CutOutcome, TrailersText, ReadsZero, InsideCut, HandlingAll, Leads,
         ContentLengthOnly, AtOf, Lines;
    if ms == [] {
      assert StreamText(ms)[..k] == "";
      NothingToDo(s, "");
      NotHalted(s, "", [], s);
    } else {
      var m, text, more := ms[0], MessageText(ms[0]), StreamText(ms[1..]);
      var n := |text|;
      assert StreamText(ms) == text + more;
      hide StreamText;
      if k < n {
        assert (text + more)[..k] == text[..k] && (text + more)[k..] == text[k..] + more;
        MessageCut(s, m, k);
        FirstMessageCut(s, ms, k);
      } else {
        assert (text + more)[..k] == text + more[..k - n] && (text + more)[k..] == more[k - n..];
        MessageRoundTrip(s, m, more[..k - n]);
        StreamCut(Handling(s, m), ms[1..], k - n);
        HandlingFirst(s, ms);
        if SpotOf(ms, k).Outside? { OtherDone(Run(s, (text + more)[..k]), [], Handling(s, m), s); }
      }
    }
  }

  /** The parser has halted inside a trailer section: what it holds, what is to come and what it would come to. */
  ghost predicate InsideCut(o: Outcome, spot: Spot, final: State, more: string)
    requires spot.Inside?
  {
    && TrailerLines(spot.lines) && spot.j < |TrailersText(spot.lines)|
    && CutOutcome(o, spot.lines, Some(spot.j), Finish(o.state)) && HandlingAll(Finish(o.state), spot.left) == final
    && more == TrailersText(spot.lines)[spot.j..] + StreamText(spot.left)
    && forall i :: 0 <= i < |spot.left| ==> Sendable(spot.left[i])
  }

  lemma FirstMessageCut(s: State, ms: seq<Message>, k: nat)
    requires ms != [] && k < |MessageText(ms[0])| && (forall i :: 0 <= i < |ms| ==> Sendable(ms[i]))
    requires var m, text := ms[0], MessageText(ms[0]);
             CutOutcome(Run(s, text[..k]), Lines(m.framing), AtOf(m.framing, |text| - k), Handling(s, m))
    ensures var o, spot := Run(s, MessageText(ms[0])[..k]), SpotOf(ms, k);
            && (spot.Outside? ==> CutOutcome(o, [], None, s))
            && (spot.Inside? ==> InsideCut(o, spot, HandlingAll(s, ms), MessageText(ms[0])[k..] + StreamText(ms[1..])))
  {
    hide Run, Handling, MessageText, Sendable, StreamText, UnreadLines, Into, TrailersText;
    var m, spot := ms[0], SpotOf(ms, k);
    if spot.Inside? {
      SendableTrailers(m);
      EndOfMessage(m);
      var text, size := MessageText(m), |TrailersText(m.framing.trailers)|;
      assert text[k..] == text[|text| - size..][spot.j..];
      HandlingFirst(s, ms);
    } else {
      OtherDone(Run(s, MessageText(m)[..k]), [], Handling(s, m), s, Lines(m.framing));
    }
  }

  lemma SendableTrailers(m: Message)
    requires Sendable(m) && m.framing.Chunks?
    ensures TrailerLines(m.framing.trailers)
  {
  }

  lemma HandlingFirst(s: State, ms: seq<Message>)
    requires ms != []
    ensures HandlingAll(s, ms) == HandlingAll(Handling(s, ms[0]), ms[1..])
  {
  }

  lemma EndOfMessage(m: Message)
    requires m.framing.Chunks?
    ensures var text, lines := MessageText(m), m.framing.trailers;
            |TrailersText(lines)| <= |text| && text[|text| - |TrailersText(lines)|..] == TrailersText(lines)
  {
    var front := EndOfChunks(m.framing.pieces, m.framing.trailers);
    var head, lines := LineText(m) + "\r\n" + HeadersText(m.headers) + front, TrailersText(m.framing.trailers);
    assert MessageText(m) == head + lines;
  }

  lemma {:induction false} EndOfChunks(pieces: seq<string>, trailers: seq<string>) returns (front: string)
    ensures ChunksText(pieces, trailers) == front + TrailersText(trailers)
    decreases |pieces|
  {
    if pieces == [] {
      front := "0\r\n";
    } else {
      var more := EndOfChunks(pieces[1..], trailers);
      front := ChunkText(pieces[0]) + more;
    }
  }

  // ---------------------------------------------------------------- reading on from any point

  /** Where a parser stands: before the line that will end a body, if it is inside one, and before whole requests. */
  datatype Point = Point(s: State, end: Option<End>, ms: seq<Message>)

  datatype End = End(line: string, trailers: seq<string>)

  ghost predicate ValidPoint(p: Point) {
    && (forall i :: 0 <= i < |p.ms| ==> Sendable(p.ms[i]))
    && (if p.end.None? then Ready(p.s)
        else p.s.phase.Body? && p.s.chunked && OneLine(p.end.value.line) && ReadsZero(p.end.value.line)
             && TrailerLines(p.end.value.trailers))
  }

  function EndPart(p: Point): string { if p.end.None? then "" else EndText(p.end.value.line, p.end.value.trailers) }

  function PointText(p: Point): string { EndPart(p) + StreamText(p.ms) }

  function Base(p: Point): State { if p.end.None? then p.s else Finish(p.s) }

  function Final(p: Point): State { HandlingAll(Base(p), p.ms) }

  function SpotAt(p: Point, k: nat): Spot {
    if p.end.None? then SpotOf(p.ms, k)
    else
      var n := |EndPart(p)|;
      var size := |TrailersText(p.end.value.trailers)|;
      if k >= n then SpotOf(p.ms, k - n)
      else if k + size >= n then Inside(p.end.value.trailers, k + size - n, p.ms)
      else Outside
  }

  /** The same analysis of a cut, from any point on. */
  lemma PointCut(p: Point, k: nat)
    requires ValidPoint(p) && k <= |PointText(p)|
    ensures var o, spot := Run(p.s, PointText(p)[..k]), SpotAt(p, k);
            && (spot.Outside? ==> CutOutcome(o, [], None, p.s))
            && (spot.Inside? ==> InsideCut(o, spot, Final(p), PointText(p)[k..]))
  {
    hide Run, Sendable, StreamText, HandlingAll, CutOutcome, ReadsZero, SpotOf, TrailersText;
    var text := StreamText(p.ms);
    if p.end.None? {
      assert PointText(p) == text;
      StreamCut(p.s, p.ms, k);
    } else {
      var e, n := EndPart(p), |EndPart(p)|;
      if k >= n {
        assert (e + text)[..k] == e + text[..k - n] && (e + text)[k..] == text[k - n..];
        ZeroLineStep(p.s, p.end.value.line, p.end.value.trailers, text[..k - n]);
        GoLeads(p.s, e, text[..k - n], Finish(p.s));
        StreamCut(Finish(p.s), p.ms, k - n);
        if SpotAt(p, k).Outside? { OtherDone(Run(p.s, PointText(p)[..k]), [], Finish(p.s), p.s); }
      } else {
        assert (e + text)[..k] == e[..k] && (e + text)[k..] == e[k..] + text;
        EndCut(p.s, p.end.value.line, p.end.value.trailers, k);
        EndSpot(p, k);
      }
    }
  }

  lemma EndSpot(p: Point, k: nat)
    requires ValidPoint(p) && p.end.Some? && k < |EndPart(p)|
    requires var o, n := Run(p.s, EndPart(p)[..k]), |p.end.value.line| + 2;
             var lines := p.end.value.trailers;
             if k < n then o == Outcome(p.s, EndPart(p)[..k], false)
             else Into(lines, k - n) <= |TrailersText(UnreadLines(lines, k - n))|
                  && o == Outcome(p.s, Partial(lines, k - n), true)
    ensures var o, spot := Run(p.s, EndPart(p)[..k]), SpotAt(p, k);
            && (spot.Outside? ==> CutOutcome(o, [], None, p.s))
            && (spot.Inside? ==> InsideCut(o, spot, Final(p), EndPart(p)[k..] + StreamText(p.ms)))
  {
    hide Run, Sendable, StreamText, HandlingAll, ReadsZero, UnreadLines, Into, TrailersText;
    var line, lines := p.end.value.line, TrailersText(p.end.value.trailers);
    if SpotAt(p, k).Inside? {
      assert EndPart(p)[k..] == lines[k - |line| - 2..];
    }
  }

  // ---------------------------------------------------------------- a line that is not zero

  /** Request number `n` has, or will have, a body longer than `size`. */
  ghost predicate Spoiled(s: State, n: nat, size: nat) {
    if |s.handled| > n then |s.handled[n].request.body| > size
    else |s.handled| == n && |s.request.body| > size && (s.phase.Body? || s.phase.Failed?)
  }

  lemma SpoiledStep(s: State, input: string, n: nat, size: nat)
    requires Spoiled(s, n, size)
    ensures var r := Advance(s, input);
            && ((r.Go? || r.Halt?) ==> Spoiled(r.state, n, size))
            && (r.Fail? ==> Spoiled(s.(phase := Failed(r.code)), n, size))
  {
    if |s.handled| > n {
      hide Advance;
      StepGrows(s, input);
    } else {
      hide Stoull, SkipTrailers, SizeText;
    }
  }

  lemma {:induction false} SpoiledRun(s: State, input: string, n: nat, size: nat)
    requires Spoiled(s, n, size)
    ensures Spoiled(Run(s, input).state, n, size)
    decreases |input|
  {
    hide Advance, Spoiled;
    SpoiledStep(s, input, n, size);
    var r := Advance(s, input);
    if r.Go? { SpoiledRun(r.state, input[r.used..], n, size); }
  }

  lemma {:induction false} SpoiledFeeds(s: State, buffer: string, pieces: seq<string>, n: nat, size: nat)
    requires Spoiled(s, n, size)
    ensures Spoiled(FeedPieces(s, buffer, pieces), n, size)
    decreases |pieces|
  {
    hide Run, Spoiled;
    if pieces != [] && !s.phase.Failed? {
      var r := Run(s, buffer + pieces[0]);
      SpoiledRun(s, buffer + pieces[0], n, size);
      SpoiledFeeds(r.state, r.rest, pieces[1..], n, size);
    }
  }

  /** What comes of a body whose next line should have been skipped: it waits, fails or grows. */
  ghost predicate Ruined(s: State, f: State) {
    f == s || f.phase.Failed? || Spoiled(f, |s.handled|, |s.request.body|)
  }

  function SizeOfLine(line: string): Option<nat> { Stoull(SizeText(line), 16) }

  /** A chunk-size line, as far as it is there. */
  lemma SizeLine(s: State, input: string, line: string, more: string)
    requires s.phase.Body? && s.chunked && OneLine(line) && input <= line + "\r\n" + more
    ensures |input| < |line| + 2 ==> Advance(s, input).NeedMore?
    ensures |input| >= |line| + 2 && SizeOfLine(line).None? ==> Advance(s, input) == Fail(-4)
    ensures |input| >= |line| + 2 && SizeOfLine(line).Some? && SizeOfLine(line).value > 0 ==>
              var r := Advance(s, input);
              r.NeedMore? || r.Fail? || (r.Go? && Spoiled(r.state, |s.handled|, |s.request.body|))
  {
    hide Stoull, SizeText, SkipTrailers;
    if |input| < |line| + 2 {
      assert input == (line + "\r\n")[..|input|];
      NoLineYet(line, |input|);
    } else {
      var tail := input[|line| + 2..];
      assert input == line + "\r\n" + tail;
      ReadLine(line, tail);
    }
  }

  /** A line that does not read as zero, where trailers should have gone on. */
  lemma {:induction false} RuinedFeeds(s: State, buffer: string, pieces: seq<string>, line: string, more: string)
    requires s.phase.Body? && s.chunked && OneLine(line) && !ReadsZero(line)
    requires buffer + Flatten(pieces) == line + "\r\n" + more
    requires SizeOfLine(line).None? ==> |buffer| < |line| + 2
    ensures Ruined(s, FeedPieces(s, buffer, pieces))
    ensures SizeOfLine(line).None? ==> FeedPieces(s, buffer, pieces).phase == Failed(-4)
    decreases |pieces|
  {
    hide Advance, SizeOfLine, Spoiled;
    assert ReadsZero(line) <==> SizeOfLine(line) == Some(0) by { SizeIs(line); }
    if pieces != [] {
      var input := buffer + pieces[0];
      assert input + Flatten(pieces[1..]) == line + "\r\n" + more;
      SizeLine(s, input, line, more);
      var r := Advance(s, input);
      if r.NeedMore? {
        Waits(s, input);
        RuinedFeeds(s, input, pieces[1..], line, more);
      } else if r.Fail? {
        FailedFeeds(s.(phase := Failed(r.code)), input, pieces[1..]);
      } else {
        SpoiledRun(r.state, input[r.used..], |s.handled|, |s.request.body|);
        SpoiledFeeds(Run(s, input).state, Run(s, input).rest, pieces[1..], |s.handled|, |s.request.body|);
      }
    }
  }

  lemma SizeIs(line: string)
    ensures ReadsZero(line) <==> SizeOfLine(line) == Some(0)
  {
  }

  lemma FailedFeeds(s: State, buffer: string, pieces: seq<string>)
    requires s.phase.Failed?
    ensures FeedPieces(s, buffer, pieces) == s
  {
  }

  lemma {:induction false} HandlingStaysReady(s: State, ms: seq<Message>)
    requires Ready(s)
    ensures Ready(HandlingAll(s, ms)) && s.handled <= HandlingAll(s, ms).handled
    decreases |ms|
  {
    if ms != [] { HandlingStaysReady(Handling(s, ms[0]), ms[1..]); }
  }

  /** A ruined body never comes to what was sent. */
  lemma RuinedDiffers(s: State, f: State, ms: seq<Message>)
    requires s.phase.Body? && Ruined(s, f)
    ensures f != HandlingAll(Finish(s), ms)
  {
    HandlingStaysReady(Finish(s), ms);
    var final := HandlingAll(Finish(s), ms);
    assert final.handled[|s.handled|] == Finish(s).handled[|s.handled|];
  }

  // ---------------------------------------------------------------- a harmless cut starts over

  lemma {:induction false} UnreadLater(lines: seq<string>, j: nat, d: nat)
    requires TrailerLines(lines) && j + d < |TrailersText(lines)|
    ensures var left, into := UnreadLines(lines, j), Into(lines, j);
            && into + d < |TrailersText(left)|
            && UnreadLines(lines, j + d) == UnreadLines(left, into + d)
    decreases |lines|
  {
    if lines != [] && j >= |lines[0]| + 2 { UnreadLater(lines[1..], j - |lines[0]| - 2, d); }
  }

  lemma {:induction false} SpotLater(ms: seq<Message>, n: nat, d: nat)
    requires SpotOf(ms, n).Inside? && SpotOf(ms, n).j < |TrailersText(SpotOf(ms, n).lines)|
    ensures var spot := SpotOf(ms, n);
            var size := |TrailersText(spot.lines)|;
            SpotOf(ms, n + d) == if spot.j + d < size then Inside(spot.lines, spot.j + d, spot.left)
                                 else SpotOf(spot.left, spot.j + d - size)
    decreases |ms|
  {
    hide MessageText;
    var size := |MessageText(ms[0])|;
    if n >= size { SpotLater(ms[1..], n - size, d); }
  }

  lemma PointLater(p: Point, n: nat, d: nat)
    requires SpotAt(p, n).Inside? && SpotAt(p, n).j < |TrailersText(SpotAt(p, n).lines)|
    ensures var spot := SpotAt(p, n);
            var size := |TrailersText(spot.lines)|;
            SpotAt(p, n + d) == if spot.j + d < size then Inside(spot.lines, spot.j + d, spot.left)
                                else SpotOf(spot.left, spot.j + d - size)
  {
    hide SpotOf;
    if p.end.None? {
      SpotLater(p.ms, n, d);
    } else if n >= |EndPart(p)| {
      SpotLater(p.ms, n - |EndPart(p)|, d);
    }
  }

  /** The point from which the parser reads on after a harmless cut. */
  function Resumed(s: State, spot: Spot): Point
    requires spot.Inside? && UnreadLines(spot.lines, spot.j) != []
  {
    var left := UnreadLines(spot.lines, spot.j);
    Point(s, Some(End(left[0], left[1..])), spot.left)
  }

  /** Both points agree on which later cuts do harm. */
  lemma SameHarm(p: Point, n: nat, s: State, d: nat)
    requires SpotAt(p, n).Inside? && TrailerLines(SpotAt(p, n).lines)
    requires SpotAt(p, n).j < |TrailersText(SpotAt(p, n).lines)| && !Harms(SpotAt(p, n)) && !ReadsZero("")
    ensures var spot := SpotAt(p, n);
            UnreadLines(spot.lines, spot.j) != [] &&
            (Harms(SpotAt(p, n + d)) <==> Harms(SpotAt(Resumed(s, spot), Into(spot.lines, spot.j) + d)))
  {
    hide SpotOf, ReadsZero, SpotAt;
    var spot := SpotAt(p, n);
    var lines, j := spot.lines, spot.j;
    var left, into := UnreadLines(lines, j), Into(lines, j);
    PointLater(p, n, d);
    UnreadIsSuffix(lines, j);
    ResumedSpot(s, spot, into + d);
    if j + d < |TrailersText(lines)| {
      UnreadLater(lines, j, d);
    }
  }

  lemma ResumedSpot(s: State, spot: Spot, k: nat)
    requires spot.Inside? && UnreadLines(spot.lines, spot.j) != []
    ensures var left := UnreadLines(spot.lines, spot.j);
            var n, size := |left[0]| + 2, |TrailersText(left)|;
            SpotAt(Resumed(s, spot), k) ==
            if k < n then Outside
            else if k < size then Inside(left[1..], k - n, spot.left)
            else SpotOf(spot.left, k - size)
  {
    hide SpotOf;
  }

  lemma BlankIsNoZero()
    ensures !ReadsZero("") && SizeOfLine("").None?
  {
    assert SizeText("") == "";
    ZeroSize();
  }

  // ---------------------------------------------------------------- the whole stream in pieces

  predicate GoodFrom(p: Point, k: nat, pieces: seq<string>)
    decreases |pieces|
  {
    pieces == [] || (!Harms(SpotAt(p, k + |pieces[0]|)) && GoodFrom(p, k + |pieces[0]|, pieces[1..]))
  }

  lemma {:induction false} SameGood(p: Point, n: nat, s: State, d: nat, pieces: seq<string>)
    requires SpotAt(p, n).Inside? && TrailerLines(SpotAt(p, n).lines)
    requires SpotAt(p, n).j < |TrailersText(SpotAt(p, n).lines)| && !Harms(SpotAt(p, n)) && !ReadsZero("")
    requires UnreadLines(SpotAt(p, n).lines, SpotAt(p, n).j) != []
    ensures var spot := SpotAt(p, n);
            GoodFrom(p, n + d, pieces) <==> GoodFrom(Resumed(s, spot), Into(spot.lines, spot.j) + d, pieces)
    decreases |pieces|
  {
    hide SpotAt, Harms, ReadsZero, TrailerLines;
    if pieces != [] {
      SameHarm(p, n, s, d + |pieces[0]|);
      SameGood(p, n, s, d + |pieces[0]|, pieces[1..]);
    }
  }

  /** No trailer line of these requests reads as a chunk size at all. */
  predicate NoSizes(lines: seq<string>) { forall i :: 0 <= i < |lines| ==> SizeOfLine(lines[i]).None? }

  predicate PlainTrailers(ms: seq<Message>) {
    forall i :: 0 <= i < |ms| && ms[i].framing.Chunks? ==> NoSizes(ms[i].framing.trailers)
  }

  predicate PlainPoint(p: Point) { PlainTrailers(p.ms) && (p.end.Some? ==> NoSizes(p.end.value.trailers)) }

  lemma {:induction false} SpotIsPlain(ms: seq<Message>, k: nat)
    requires PlainTrailers(ms) && SpotOf(ms, k).Inside?
    ensures NoSizes(SpotOf(ms, k).lines) && PlainTrailers(SpotOf(ms, k).left)
    decreases |ms|
  {
    hide MessageText, SizeOfLine;
    if k >= |MessageText(ms[0])| { SpotIsPlain(ms[1..], k - |MessageText(ms[0])|); }
  }

  lemma {:induction false} UnreadIsPlain(lines: seq<string>, j: nat)
    requires NoSizes(lines)
    ensures NoSizes(UnreadLines(lines, j)) && SizeOfLine(FirstUnread(lines, j)).None?
    decreases |lines|
  {
    hide SizeOfLine;
    BlankIsNoZero();
    if lines != [] && j >= |lines[0]| + 2 { UnreadIsPlain(lines[1..], j - |lines[0]| - 2); }
  }

  lemma PointIsPlain(p: Point, k: nat)
    requires PlainPoint(p) && SpotAt(p, k).Inside?
    ensures SizeOfLine(FirstUnread(SpotAt(p, k).lines, SpotAt(p, k).j)).None?
  {
    hide SizeOfLine, SpotOf, UnreadLines;
    if p.end.None? {
      SpotIsPlain(p.ms, k);
    } else if k >= |EndPart(p)| {
      SpotIsPlain(p.ms, k - |EndPart(p)|);
    }
    UnreadIsPlain(SpotAt(p, k).lines, SpotAt(p, k).j);
  }

  ghost predicate Verdict(f: State, p: Point, good: bool) {
    if good then f == Final(p) else f != Final(p) && (PlainPoint(p) ==> f.phase == Failed(-4))
  }

  /** What is unread, from the start of the first unread line. */
  lemma UnreadText(lines: seq<string>, j: nat) returns (tail: string)
    requires TrailerLines(lines) && j < |TrailersText(lines)|
    ensures var left, into := UnreadLines(lines, j), Into(lines, j);
            && into <= |TrailersText(left)| && TrailersText(lines)[j..] == TrailersText(left)[into..]
            && TrailersText(left) == FirstUnread(lines, j) + "\r\n" + tail && OneLine(FirstUnread(lines, j))
  {
    UnreadIsSuffix(lines, j);
    var left, into := UnreadLines(lines, j), Into(lines, j);
    tail := if left == [] then "" else TrailersText(left[1..]);
    assert TrailersText(lines)[j..] == TrailersText(lines)[j - into..][into..];
  }

  lemma Joined(text: string, into: nat, more: string)
    requires into <= |text|
    ensures text[..into] + (text[into..] + more) == text + more
    ensures (text + more)[into..] == text[into..] + more && (text + more)[..into] == text[..into]
  {
  }

  /** A cut that does harm: the unread line is read as a size. */
  lemma HarmDone(p: Point, n: nat, o: Outcome, pieces: seq<string>)
    requires Harms(SpotAt(p, n)) && InsideCut(o, SpotAt(p, n), Final(p), Flatten(pieces))
    ensures Verdict(FeedPieces(o.state, o.rest, pieces), p, false)
  {
    hide SpotAt, ReadsZero, HandlingAll, StreamText, FeedPieces, Ruined, PlainPoint, SizeOfLine, TrailersText,
         UnreadLines, Into, FirstUnread;
    var spot := SpotAt(p, n);
    var lines, j, line := spot.lines, spot.j, FirstUnread(spot.lines, spot.j);
    var tail := UnreadText(lines, j);
    var unread, more := TrailersText(UnreadLines(lines, j)), StreamText(spot.left);
    Joined(unread, Into(lines, j), more);
    assert o.rest + Flatten(pieces) == unread + more;
    assert unread + more == line + "\r\n" + (tail + more);
    assert |o.rest| < |line| + 2 by { UnreadIsSuffix(lines, j); }
    RuinedFeeds(o.state, o.rest, pieces, line, tail + more);
    RuinedDiffers(o.state, FeedPieces(o.state, o.rest, pieces), spot.left);
    if PlainPoint(p) { PointIsPlain(p, n); }
  }

  /** A cut that does none: the parser resumes at another point, on the way to the same end. */
  lemma HarmlessResumes(p: Point, n: nat, o: Outcome, more: string)
    requires !Harms(SpotAt(p, n)) && SpotAt(p, n).Inside? && InsideCut(o, SpotAt(p, n), Final(p), more)
    ensures var spot := SpotAt(p, n);
            && UnreadLines(spot.lines, spot.j) != []
            && var q, into := Resumed(o.state, spot), Into(spot.lines, spot.j);
            && ValidPoint(q) && Final(q) == Final(p) && into <= |PointText(q)| && more == PointText(q)[into..]
            && SpotAt(q, into).Outside? && Run(q.s, PointText(q)[..into]) == Outcome(o.state, o.rest, false)
  {
    hide SpotAt, ReadsZero, HandlingAll, StreamText, Run, Sendable, Into;
    var spot := SpotAt(p, n);
    var lines, j := spot.lines, spot.j;
    BlankIsNoZero();
    UnreadIsSuffix(lines, j);
    var tail := UnreadText(lines, j);
    var left, into := UnreadLines(lines, j), Into(lines, j);
    hide UnreadLines;
    assert left != [];
    var q := Resumed(o.state, spot);
    assert EndPart(q) == TrailersText(left);
    Joined(TrailersText(left), into, StreamText(spot.left));
    ResumedSpot(o.state, spot, into);
    EndCut(o.state, left[0], left[1..], into);
  }

  lemma Resume(p: Point, n: nat, o: Outcome, more: string, pieces: seq<string>)
    requires !Harms(SpotAt(p, n)) && SpotAt(p, n).Inside? && InsideCut(o, SpotAt(p, n), Final(p), more)
    ensures var spot := SpotAt(p, n);
            && UnreadLines(spot.lines, spot.j) != []
            && (GoodFrom(p, n, pieces) <==> GoodFrom(Resumed(o.state, spot), Into(spot.lines, spot.j), pieces))
            && !PlainPoint(p)
  {
    hide SpotAt, GoodFrom, UnreadLines, Into, Harms, Final, PlainPoint, Run, PointText, ValidPoint, CutOutcome,
         HandlingAll, StreamText, TrailersText, ReadsZero;
    BlankIsNoZero();
    HarmlessResumes(p, n, o, more);
    SameGood(p, n, o.state, 0, pieces);
    HarmlessIsNotPlain(p, n);
  }

  lemma HarmlessIsNotPlain(p: Point, n: nat)
    requires SpotAt(p, n).Inside? && !Harms(SpotAt(p, n))
    ensures !PlainPoint(p)
  {
    hide SpotAt, FirstUnread, PlainPoint, SizeOfLine, ReadsZero;
    SizeIs(FirstUnread(SpotAt(p, n).lines, SpotAt(p, n).j));
    if PlainPoint(p) { PointIsPlain(p, n); }
  }

  lemma WholePoint(p: Point)
    requires ValidPoint(p)
    ensures Run(p.s, PointText(p)).state == Final(p)
  {
    hide Run, Sendable, HandlingAll, StreamText, EndText, ReadsZero;
    var text := StreamText(p.ms);
    if p.end.None? {
      assert PointText(p) == text;
      PipelineRoundTrip(p.s, p.ms);
    } else {
      ZeroLineStep(p.s, p.end.value.line, p.end.value.trailers, text);
      GoLeads(p.s, EndPart(p), text, Finish(p.s));
      PipelineRoundTrip(Finish(p.s), p.ms);
    }
  }

  lemma NextFeed(o: Outcome, pieces: seq<string>, next: Outcome)
    requires pieces != [] && !o.state.phase.Failed? && !next.state.phase.Failed?
    requires SameRun(next, Run(o.state, o.rest + pieces[0]))
    ensures FeedPieces(o.state, o.rest, pieces) == FeedPieces(next.state, next.rest, pieces[1..])
  {
    hide Run;
  }

  /** From any point, in any pieces. */
  lemma {:induction false} PiecesFrom(p: Point, k: nat, pieces: seq<string>)
    requires ValidPoint(p) && k <= |PointText(p)| && Flatten(pieces) == PointText(p)[k..] && SpotAt(p, k).Outside?
    ensures var o := Run(p.s, PointText(p)[..k]);
            Verdict(FeedPieces(o.state, o.rest, pieces), p, GoodFrom(p, k, pieces))
    decreases |pieces|
  {
    hide Run, ValidPoint, PointText, SpotAt, Harms, Final, InsideCut, UnreadLines, Into, CutOutcome, PlainPoint;
    var text := PointText(p);
    PointCut(p, k);
    var o := Run(p.s, text[..k]);
    OutsideIsOpen(o, p.s);
    if pieces == [] {
      assert text[..k] == text;
      WholePoint(p);
    } else {
      var piece, n := pieces[0], k + |pieces[0]|;
      assert Flatten(pieces) == piece + Flatten(pieces[1..]);
      assert text == text[..k] + (piece + Flatten(pieces[1..]));
      assert text[..n] == text[..k] + piece && Flatten(pieces[1..]) == text[n..];
      RunInTwo(p.s, text[..k], piece);
      PointCut(p, n);
      var next, spot := Run(p.s, text[..n]), SpotAt(p, n);
      if spot.Outside? {
        OutsideIsOpen(next, p.s);
        OutsideIsHarmless(spot);
        NextFeed(o, pieces, next);
        PiecesFrom(p, n, pieces[1..]);
      } else {
        InsideIsOpen(next, spot, Final(p), text[n..]);
        NextFeed(o, pieces, next);
        AfterInside(p, n, next, pieces[1..]);
        if !Harms(spot) {
          HarmlessResumes(p, n, next, text[n..]);
          PiecesFrom(Resumed(next.state, spot), Into(spot.lines, spot.j), pieces[1..]);
        }
      }
    }
  }

  /** After a cut inside trailers: harm is final, and without it the verdict is that of the resumed point. */
  lemma AfterInside(p: Point, n: nat, o: Outcome, pieces: seq<string>)
    requires SpotAt(p, n).Inside? && InsideCut(o, SpotAt(p, n), Final(p), Flatten(pieces))
    ensures Harms(SpotAt(p, n)) ==> Verdict(FeedPieces(o.state, o.rest, pieces), p, false)
    ensures !Harms(SpotAt(p, n)) ==>
              var spot := SpotAt(p, n);
              && UnreadLines(spot.lines, spot.j) != []
              && var q, into := Resumed(o.state, spot), Into(spot.lines, spot.j);
              && Final(q) == Final(p) && !PlainPoint(p) && (GoodFrom(p, n, pieces) <==> GoodFrom(q, into, pieces))
  {
    hide SpotAt, GoodFrom, UnreadLines, Into, Final, PlainPoint, Harms, InsideCut, Verdict, FeedPieces, Run, PointText,
         ValidPoint;
    if Harms(SpotAt(p, n)) {
      HarmDone(p, n, o, pieces);
    } else {
      HarmlessResumes(p, n, o, Flatten(pieces));
      Resume(p, n, o, Flatten(pieces), pieces);
    }
  }

  lemma InsideIsOpen(o: Outcome, spot: Spot, final: State, more: string)
    requires spot.Inside? && InsideCut(o, spot, final, more)
    ensures !o.state.phase.Failed?
  {
  }

  lemma OutsideIsHarmless(spot: Spot)
    ensures spot.Outside? ==> !Harms(spot)
  {
  }

  lemma OutsideIsOpen(o: Outcome, s: State)
    requires CutOutcome(o, [], None, s)
    ensures !o.halted && !o.state.phase.Failed?
  {
  }

  lemma {:induction false} GoodCutsAre(ms: seq<Message>, k: nat, pieces: seq<string>)
    ensures GoodCuts(ms, k, pieces) == GoodFrom(Point(INITIAL, None, ms), k, pieces)
    decreases |pieces|
  {
    hide SpotOf, Harms;
    if pieces != [] { GoodCutsAre(ms, k + |pieces[0]|, pieces[1..]); }
  }

  /**
   Requests written by a client, in any pieces: they all reach the application as they were written if and only if
   no cut leaves a first unread trailer line, or the blank line, that does not read as chunk size zero. If no trailer
   line reads as a size at all, the session fails with -4 otherwise.
   */
  lemma PiecesExact(ms: seq<Message>, pieces: seq<string>)
    requires (forall i :: 0 <= i < |ms| ==> Sendable(ms[i])) && Flatten(pieces) == StreamText(ms)
    ensures FeedPieces(INITIAL, "", pieces) == HandlingAll(INITIAL, ms) <==> GoodCuts(ms, 0, pieces)
    ensures !GoodCuts(ms, 0, pieces) && PlainTrailers(ms) ==> FeedPieces(INITIAL, "", pieces).phase == Failed(-4)
  {
    hide Run, Sendable, StreamText, FeedPieces, GoodCuts, GoodFrom, HandlingAll, PlainTrailers;
    var p := Point(INITIAL, None, ms);
    assert PointText(p) == StreamText(ms) && PointText(p)[..0] == "" && PointText(p)[0..] == PointText(p);
    NothingToDo(INITIAL, "");
    NoCutYet(ms);
    GoodCutsAre(ms, 0, pieces);
    PiecesFrom(p, 0, pieces);
  }

  lemma NoCutYet(ms: seq<Message>)
    ensures SpotOf(ms, 0).Outside?
  {
    if ms != [] && ms[0].framing.Chunks? { LongEnough(ms[0].framing.pieces, ms[0].framing.trailers); }
  }

  lemma BlankFails(s: State)
    requires s.phase.Body? && s.chunked
    ensures Run(s, "\r\n").state == s.(phase := Failed(-4))
  {
    BlankIsNoZero();
    SizeLine(s, "\r\n", "", "");
  }

  /** A trailer field whose name begins with hexadecimal digits is read as a size: `Date` as 0xDA. */
  lemma DateIsASize()
    ensures SizeOfLine("Date: x") == Some(0xDA) && !ReadsZero("Date: x")
  {
    var line := "Date: x";
    assert SizeText(line) == line by { FindUnique(line, ';', 0, |line|); }
    assert line[1..] == "ate: x" && "ate: x"[1..] == "te: x";
    assert LeadingNumber("te: x", 16, Number(2, 0xDA)) == Number(2, 0xDA);
    assert LeadingNumber("ate: x", 16, Number(1, 0xD)) == Number(2, 0xDA);
    assert LeadingNumber(line, 16, Number(0, 0)) == Number(2, 0xDA);
  }

  /** The last chunk and its blank line must arrive together: apart, the blank line is read as a chunk size. */
  lemma TrailerCutMatters(s: State)
    requires s.phase.Body? && s.chunked
    ensures Run(s, "0\r\n" + "\r\n").state == Finish(s)
    ensures FeedPieces(s, "", ["0\r\n", "\r\n"]) == s.(phase := Failed(-4))
  {
    hide Run, Advance;
    assert "0\r\n" + "\r\n" == LAST_CHUNK + "";
    LastChunkStep(s, "");
    GoLeads(s, LAST_CHUNK, "", Finish(s));
    NothingToDo(Finish(s), "");
    assert LAST_CHUNK[..3] == "0\r\n" && "" + "0\r\n" == "0\r\n" && "0\r\n"[3..] == "" && "" + "\r\n" == "\r\n";
    ZeroReadsZero();
    EndCut(s, "0", [], 3);
    BlankFails(s);
    var pieces := ["0\r\n", "\r\n"];
    assert pieces[1..] == ["\r\n"] && ["\r\n"][1..] == [];
    assert FeedPieces(s, "", ["\r\n"]) == s.(phase := Failed(-4));
  }

  /** A cut inside trailer fields may do no harm: a trailer line that is itself a last chunk. */
  lemma HarmlessTrailerCut(s: State)
    requires s.phase.Body? && s.chunked
    ensures FeedPieces(s, "", ["0\r\n", LAST_CHUNK]) == Finish(s) == Run(s, "0\r\n" + LAST_CHUNK).state
  {
    hide Run, Advance;
    assert LAST_CHUNK[..3] == "0\r\n" && "" + "0\r\n" == "0\r\n" && "" + LAST_CHUNK == LAST_CHUNK && "0\r\n"[3..] == "";
    ZeroReadsZero();
    EndCut(s, "0", [], 3);
    assert LAST_CHUNK + "" == LAST_CHUNK;
    LastChunkStep(s, "");
    GoLeads(s, LAST_CHUNK, "", Finish(s));
    NothingToDo(Finish(s), "");
    var pieces := ["0\r\n", LAST_CHUNK];
    assert pieces[1..] == [LAST_CHUNK] && [LAST_CHUNK][1..] == [];
    assert FeedPieces(s, "", [LAST_CHUNK]) == Finish(s);
    TrailerLine(s);
    GoLeads(s, "0\r\n" + LAST_CHUNK, "", Finish(s));
    assert ("0\r\n" + LAST_CHUNK) + "" == "0\r\n" + LAST_CHUNK;
  }

  lemma TrailerLine(s: State)
    requires s.phase.Body? && s.chunked
    ensures Advance(s, "0\r\n" + LAST_CHUNK + "") == Go(Finish(s), 8)
  {
    var input := "0\r\n" + LAST_CHUNK + "";
    assert input == "0" + "\r\n" + LAST_CHUNK;
    ReadLine("0", LAST_CHUNK);
    assert SizeText("0") == "0" by { assert Find("0", ';', 0) == 1; }
    ZeroSize();
    FindCrLfUnique(input, 3, 4);
    FindCrLfUnique(input, 6, 6);
    assert SkipTrailers(input, 6) == Trailers(8, true);
    assert SkipTrailers(input, 3) == Trailers(8, true);
  }
}
