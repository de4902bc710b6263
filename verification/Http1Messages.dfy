/**
 HTTP/1.1 requests as a client writes them (sections 3, 5, 6 and 7.1 of RFC 9112), and what the parser makes of
 them: the inverse of the parser, for both ways of framing a body.
 */
module Http1Messages {
  import opened Common
  import opened Http1Parser
  import opened Http1Streams

  datatype Framing = Sized(body: string) | Chunks(pieces: seq<string>, trailers: seq<string>)

  datatype Message = Message(verb: string, path: string, headers: seq<Header>, framing: Framing)

  // ---------------------------------------------------------------- what headers declare

  /** The value of the last header with that lower-case name. */
  function LastValue(headers: seq<Header>, key: string): Option<string> {
    if headers == [] then None
    else
      var later := LastValue(headers[1..], key);
      if later.Some? then later else if Lower(headers[0].name) == key then Some(headers[0].value) else None
  }

  predicate Announces(h: Header, key: string, value: string) { Lower(h.name) == key && Lower(h.value) == value }

  /** The last `Connection` header that says something about keeping the connection. */
  function LastAlive(headers: seq<Header>): Option<bool> {
    if headers == [] then None
    else
      var later := LastAlive(headers[1..]);
      if later.Some? then later
      else if Announces(headers[0], "connection", "close") then Some(false)
      else if Announces(headers[0], "connection", "keep-alive") then Some(true)
      else None
  }

  predicate SaysChunked(headers: seq<Header>) {
    headers != [] && (Announces(headers[0], "transfer-encoding", "chunked") || SaysChunked(headers[1..]))
  }

  predicate LengthsParse(headers: seq<Header>) {
    headers == [] || ((Lower(headers[0].name) == "content-length" ==> Stoull(headers[0].value, 10).Some?)
        && LengthsParse(headers[1..]))
  }

  function Or<T>(o: Option<T>, default: T): T { if o.Some? then o.value else default }

  function DeclaredLength(headers: seq<Header>, default: nat): nat {
    var text := LastValue(headers, "content-length");
    if text.None? then default else Or(Stoull(text.value, 10), 0)
  }

  /** The state after headers, told field by field. */
  function WithHeaders(s: State, headers: seq<Header>): State {
    s.(request := s.request.(headers := s.request.headers + headers,
                             authority := Or(LastValue(headers, "host"), s.request.authority)),
       contentLength := DeclaredLength(headers, s.contentLength),
       chunked := s.chunked || SaysChunked(headers),
       keepAlive := Or(LastAlive(headers), s.keepAlive))
  }

  lemma KeysDiffer()
    ensures "content-length" != "transfer-encoding" && "content-length" != "connection" && "content-length" != "host"
    ensures "transfer-encoding" != "connection" && "transfer-encoding" != "host" && "connection" != "host"
    ensures "close" != "keep-alive"
  {
    assert |"content-length"| == 14 && |"transfer-encoding"| == 17 && |"connection"| == 10 && |"host"| == 4;
    assert |"close"| == 5 && |"keep-alive"| == 10;
  }

  /** What one more header in front adds. */
  lemma ConsDeclares(h: Header, more: seq<Header>)
    ensures forall key :: LastValue([h] + more, key) ==
              if LastValue(more, key).Some? then LastValue(more, key)
              else if Lower(h.name) == key then Some(h.value) else None
    ensures SaysChunked([h] + more) == (Announces(h, "transfer-encoding", "chunked") || SaysChunked(more))
    ensures LengthsParse([h] + more) ==
            ((Lower(h.name) == "content-length" ==> Stoull(h.value, 10).Some?) && LengthsParse(more))
    ensures LastAlive([h] + more) == if LastAlive(more).Some? then LastAlive(more)
                                     else if Announces(h, "connection", "close") then Some(false)
                                     else if Announces(h, "connection", "keep-alive") then Some(true) else None
  {
    hide Stoull, Lower;
    assert ([h] + more)[1..] == more && ([h] + more)[0] == h;
  }

  lemma NothingDeclared()
    ensures (forall key :: LastValue([], key) == None) && !SaysChunked([]) && LengthsParse([]) && LastAlive([]) == None
  {
  }

  lemma OneHeader(s: State, h: Header)
    requires LengthsParse([h])
    ensures AddHeader(s, h.name, h.value) == Some(WithHeaders(s, [h]))
  {
    hide Stoull, Lower, LastValue, LastAlive, SaysChunked, LengthsParse;
    KeysDiffer();
    assert [h] + [] == [h];
    ConsDeclares(h, []);
    NothingDeclared();
  }

  lemma ThenHeaders(s: State, h: Header, more: seq<Header>)
    requires LengthsParse([h] + more)
    ensures LengthsParse([h]) && LengthsParse(more)
    ensures WithHeaders(WithHeaders(s, [h]), more) == WithHeaders(s, [h] + more)
    ensures SaysChunked(more) ==> SaysChunked([h] + more)
  {
    hide Stoull, Lower, LastValue, LastAlive, SaysChunked, LengthsParse;
    assert [h] + [] == [h];
    ConsDeclares(h, []);
    NothingDeclared();
    ConsDeclares(h, more);
    assert s.request.headers + ([h] + more) == s.request.headers + [h] + more;
  }

  // ---------------------------------------------------------------- the writer

  /** A line the reader cannot mistake for two. */
  predicate OneLine(s: string) { '\r' !in s }

  predicate Plain(h: Header) {
    OneLine(h.name) && OneLine(h.value) && ':' !in h.name && Trimmed(h.name) == h.name && Trimmed(h.value) == h.value
  }

  function HeaderText(h: Header): string { h.name + ": " + h.value }

  function HeadersText(headers: seq<Header>): string {
    if headers == [] then "\r\n" else HeaderText(headers[0]) + "\r\n" + HeadersText(headers[1..])
  }

  function HexDigit(d: nat): char
    requires d < 16
  {
    "0123456789abcdef"[d]
  }

  /** `{:x}` formatting. */
  function Hex(n: nat): (s: string)
    ensures s != ""
  {
    if n < 16 then [HexDigit(n)] else Hex(n / 16) + [HexDigit(n % 16)]
  }

  function ChunkText(piece: string): string { Hex(|piece|) + "\r\n" + piece + "\r\n" }

  const LAST_CHUNK := "0\r\n\r\n"

  /** Trailer lines and the blank line behind them. */
  function TrailersText(lines: seq<string>): string {
    if lines == [] then "\r\n" else lines[0] + "\r\n" + TrailersText(lines[1..])
  }

  /** A line that ends a body, and the trailer section behind it. */
  function EndText(line: string, trailers: seq<string>): string { line + "\r\n" + TrailersText(trailers) }

  function ChunksText(pieces: seq<string>, trailers: seq<string>): string {
    if pieces == [] then EndText("0", trailers) else ChunkText(pieces[0]) + ChunksText(pieces[1..], trailers)
  }

  function BodyText(framing: Framing): string {
    match framing
    case Sized(body) => body
    case Chunks(pieces, trailers) => ChunksText(pieces, trailers)
  }

  function BodyOf(framing: Framing): string {
    match framing
    case Sized(body) => body
    case Chunks(pieces, _) => Flatten(pieces)
  }

  function LineText(m: Message): string { m.verb + " " + m.path + " HTTP/1.1" }

  function MessageText(m: Message): string {
    LineText(m) + "\r\n" + (HeadersText(m.headers) + BodyText(m.framing))
  }

  predicate TrailerLines(lines: seq<string>) {
    forall i :: 0 <= i < |lines| ==> lines[i] != "" && OneLine(lines[i])
  }

  /** The headers tell the truth about the body. An empty chunk would end it. */
  predicate Framed(m: Message) {
    match m.framing
    case Sized(body) => !SaysChunked(m.headers) && DeclaredLength(m.headers, 0) == |body|
    case Chunks(pieces, trailers) =>
      SaysChunked(m.headers) && TrailerLines(trailers) && forall i :: 0 <= i < |pieces| ==> 0 < |pieces[i]| < SIZE_LIMIT
  }

  predicate Sendable(m: Message) {
    && OneLine(m.verb) && ' ' !in m.verb && OneLine(m.path)
    && (forall i :: 0 <= i < |m.headers| ==> Plain(m.headers[i]))
    && LengthsParse(m.headers) && Framed(m)
  }

  /** What the application is handed, on a connection whose keep-alive flag was `alive`. */
  function Received(m: Message, alive: bool): Handled {
    Handled(Request(m.verb, m.path, Or(LastValue(m.headers, "host"), ""), m.headers, BodyOf(m.framing)),
            Or(LastAlive(m.headers), alive))
  }

  // ---------------------------------------------------------------- steps of the parser

  /** The parser gets from `s` before `a` to `t` before `b`. */
  ghost predicate Leads(s: State, a: string, t: State, b: string) {
    Run(s, a) == Run(t, b) && (ContentLengthOnly(t, b) && !s.chunked ==> ContentLengthOnly(s, a))
  }

  lemma GoLeads(s: State, text: string, rest: string, t: State)
    requires Advance(s, text + rest) == Go(t, |text|)
    ensures Leads(s, text + rest, t, rest)
  {
    hide Advance;
    assert (text + rest)[|text|..] == rest;
  }

  lemma ReadLine(line: string, rest: string)
    requires OneLine(line)
    ensures var input := line + "\r\n" + rest;
            FindCrLf(input, 0) == |line| < |input| && input[..|line|] == line
  {
    var input := line + "\r\n" + rest;
    assert input[|line|] == '\r' && input[|line| + 1] == '\n';
    forall i | 0 <= i < |line| ensures !CrLfAt(input, i) { assert input[i] == line[i] && line[i] in line; }
    FindCrLfUnique(input, 0, |line|);
    assert input[..|line|] == line;
  }

  lemma RequestLineStep(s: State, m: Message)
    requires Sendable(m)
    ensures OneLine(LineText(m))
    ensures OnRequestLine(s, LineText(m)) ==
            Go(s.(phase := Headers, request := s.request.(verb := m.verb, path := m.path)), |LineText(m)| + 2)
  {
    var line := LineText(m);
    var first, last := |m.verb|, |m.verb| + 1 + |m.path|;
    assert line[first] == ' ' && line[last] == ' ' && line[last..] == " HTTP/1.1";
    forall i | 0 <= i < |m.verb| ensures line[i] != ' ' { assert line[i] == m.verb[i] && m.verb[i] in m.verb; }
    FindUnique(line, ' ', 0, first);
    forall i | last < i < |line| ensures line[i] != ' ' { assert line[i] == " HTTP/1.1"[i - last]; }
    assert FindLast(line, ' ', |line|) == last;
    assert line[..first] == m.verb && line[first + 1..last] == m.path;
  }

  lemma HeaderLineStep(s: State, h: Header)
    requires Plain(h)
    ensures OneLine(HeaderText(h)) && HeaderText(h) != ""
    ensures OnHeaderLine(s, HeaderText(h)) ==
            var next := AddHeader(s, h.name, h.value);
            if next.None? then Fail(-3) else Go(next.value, |HeaderText(h)| + 2)
  {
    hide AddHeader;
    var line, colon := HeaderText(h), |h.name|;
    assert line[colon] == ':';
    forall i | 0 <= i < colon ensures line[i] != ':' { assert line[i] == h.name[i] && h.name[i] in h.name; }
    FindUnique(line, ':', 0, colon);
    assert line[..colon] == h.name && line[colon + 1..] == " " + h.value;
    assert (" " + h.value)[1..] == h.value;
  }

  lemma LineStep(s: State, line: string, rest: string)
    requires OneLine(line)
    ensures s.phase.RequestLine? ==> Advance(s, line + "\r\n" + rest) == OnRequestLine(s, line)
    ensures s.phase.Headers? ==> Advance(s, line + "\r\n" + rest) == OnHeaderLine(s, line)
  {
    hide OnRequestLine, OnHeaderLine;
    ReadLine(line, rest);
  }

  /** After the blank line. */
  function AfterHeaders(s: State): State {
    if s.contentLength > 0 || s.chunked then s.(phase := Body) else Finish(s)
  }

  /** The header section, up to and including its blank line. */
  lemma {:induction false} HeadersStep(s: State, headers: seq<Header>, rest: string)
    requires s.phase.Headers? && LengthsParse(headers)
    requires forall i :: 0 <= i < |headers| ==> Plain(headers[i])
    ensures var t := AfterHeaders(WithHeaders(s, headers));
            && Run(s, HeadersText(headers) + rest) == Run(t, rest)
            && (!s.chunked && !SaysChunked(headers) ==> Leads(s, HeadersText(headers) + rest, t, rest))
    decreases |headers|
  {
    hide Run, ContentLengthOnly, Advance, Plain;
    if headers == [] {
      assert "" + "\r\n" + rest == "\r\n" + rest;
      LineStep(s, "", rest);
      assert WithHeaders(s, []) == s by { assert s.request.headers + [] == s.request.headers; }
      GoLeads(s, "\r\n", rest, AfterHeaders(s));
    } else {
      var h, more := headers[0], HeadersText(headers[1..]) + rest;
      assert headers == [h] + headers[1..];
      ThenHeaders(s, h, headers[1..]);
      OneHeader(s, h);
      hide AddHeader, OnHeaderLine, WithHeaders;
      var next := AddHeader(s, h.name, h.value).value;
      HeaderLineStep(s, h);
      LineStep(s, HeaderText(h), more);
      GoLeads(s, HeaderText(h) + "\r\n", more, next);
      assert HeadersText(headers) + rest == HeaderText(h) + "\r\n" + more;
      AddedShape(s, h);
      HeadersStep(next, headers[1..], rest);
    }
  }

  lemma AddedShape(s: State, h: Header)
    requires AddHeader(s, h.name, h.value).Some?
    ensures var next := AddHeader(s, h.name, h.value).value;
            next.phase == s.phase && next.chunked == (s.chunked || Announces(h, "transfer-encoding", "chunked"))
  {
    hide Stoull, Lower;
  }

  // ---------------------------------------------------------------- chunks

  lemma HexDigitValue(d: nat)
    requires d < 16
    ensures DigitOf(HexDigit(d)) == d && !IsSpace(HexDigit(d)) && HexDigit(d) !in "+-;\r"
  {
  }

  predicate IsHex(s: string) { forall i :: 0 <= i < |s| ==> exists d: nat :: d < 16 && s[i] == HexDigit(d) }

  lemma {:induction false} LeadingSnoc(s: string, d: nat, acc: Number)
    requires IsHex(s) && d < 16
    ensures LeadingNumber(s + [HexDigit(d)], 16, acc) ==
            var r := LeadingNumber(s, 16, acc); Number(r.digits + 1, r.value * 16 + d)
  {
    hide HexDigit, DigitOf;
    HexDigitValue(d);
    if s != "" {
      var d0: nat :| d0 < 16 && s[0] == HexDigit(d0);
      HexDigitValue(d0);
      assert (s + [HexDigit(d)])[1..] == s[1..] + [HexDigit(d)];
      LeadingSnoc(s[1..], d, Number(acc.digits + 1, acc.value * 16 + d0));
    } else {
      assert [HexDigit(d)][1..] == "";
    }
  }

  lemma {:induction false} HexValue(n: nat)
    ensures IsHex(Hex(n)) && LeadingNumber(Hex(n), 16, Number(0, 0)) == Number(|Hex(n)|, n)
  {
    hide HexDigit, LeadingNumber;
    if n < 16 {
      LeadingSnoc("", n, Number(0, 0));
      assert "" + [HexDigit(n)] == Hex(n);
      assert LeadingNumber("", 16, Number(0, 0)) == Number(0, 0) by { LeadingNothing(); }
    } else {
      HexValue(n / 16);
      LeadingSnoc(Hex(n / 16), n % 16, Number(0, 0));
      forall i | 0 <= i < |Hex(n)| ensures exists d: nat :: d < 16 && Hex(n)[i] == HexDigit(d) {
        if i < |Hex(n / 16)| { assert Hex(n)[i] == Hex(n / 16)[i]; }
      }
    }
  }

  lemma LeadingNothing()
    ensures LeadingNumber("", 16, Number(0, 0)) == Number(0, 0)
  {
  }

  /** Chunk sizes are read back. */
  lemma HexRoundTrip(n: nat)
    requires n < SIZE_LIMIT
    ensures Stoull(Hex(n), 16) == Some(n) && OneLine(Hex(n)) && SizeText(Hex(n)) == Hex(n)
  {
    hide Hex, HexDigit, LeadingNumber;
    var s := Hex(n);
    HexValue(n);
    forall i | 0 <= i < |s| ensures s[i] !in "+-;\r" && !IsSpace(s[i]) && DigitOf(s[i]) < 16 {
      var d: nat :| d < 16 && s[i] == HexDigit(d);
      HexDigitValue(d);
    }
    assert '+' in "+-;\r" && '-' in "+-;\r" && ';' in "+-;\r" && '\r' in "+-;\r";
    if |s| > 1 { assert DigitOf('x') >= 16 && DigitOf('X') >= 16; }
    FindUnique(s, ';', 0, |s|);
    assert s[..|s|] == s;
  }

  /** What the chunk writer emits, the chunk reader takes back. */
  lemma ChunkStep(s: State, piece: string, rest: string)
    requires s.phase.Body? && s.chunked && 0 < |piece| < SIZE_LIMIT
    ensures Advance(s, ChunkText(piece) + rest) == Go(AppendBody(s, piece), |ChunkText(piece)|)
  {
    hide Hex, Stoull;
    var size := Hex(|piece|);
    var after := piece + "\r\n" + rest;
    var input := ChunkText(piece) + rest;
    HexRoundTrip(|piece|);
    assert input == size + "\r\n" + after;
    ReadLine(size, after);
    var start := |size| + 2;
    assert input[start..] == after;
    assert input[start..start + |piece|] == after[..|piece|] == piece;
    assert input[start + |piece|] == after[|piece|] == '\r' && input[start + |piece| + 1] == after[|piece| + 1] == '\n';
  }

  /** A line that reads as chunk size zero. */
  predicate ReadsZero(line: string) { Stoull(SizeText(line), 16) == Some(0) }

  lemma {:induction false} SkipShift(head: string, t: string, from: nat)
    requires from <= |t|
    ensures var r := SkipTrailers(t, from);
            SkipTrailers(head + t, |head| + from) == Trailers(|head| + r.end, r.complete)
    decreases |t| - from
  {
    var line := FindCrLf(t, from);
    assert FindCrLf(head + t, |head| + from) == |head| + line by {
      FindCrLfShift(head + t, |head| + from);
      FindCrLfShift(t, from);
      assert (head + t)[|head| + from..] == t[from..];
    }
    hide FindCrLf;
    if from < line < |t| { SkipShift(head, t, line + 2); }
  }

  lemma SkipOne(line: string, more: string)
    requires line != "" && OneLine(line)
    ensures var r := SkipTrailers(more, 0);
            SkipTrailers(line + "\r\n" + more, 0) == Trailers(|line| + 2 + r.end, r.complete)
  {
    ReadLine(line, more);
    SkipShift(line + "\r\n", more, 0);
  }

  /** A whole trailer section is skipped. */
  lemma {:induction false} TrailersSkipped(lines: seq<string>, rest: string)
    requires TrailerLines(lines)
    ensures SkipTrailers(TrailersText(lines) + rest, 0) == Trailers(|TrailersText(lines)|, true)
    decreases |lines|
  {
    if lines == [] {
      assert "" + "\r\n" + rest == "\r\n" + rest;
      ReadLine("", rest);
    } else {
      hide SkipTrailers;
      var more := TrailersText(lines[1..]) + rest;
      assert TrailersText(lines) + rest == lines[0] + "\r\n" + more;
      SkipOne(lines[0], more);
      TrailersSkipped(lines[1..], rest);
    }
  }

  /** Any line that reads as size zero ends the body, with the trailers behind it. */
  lemma ZeroLineStep(s: State, line: string, trailers: seq<string>, rest: string)
    requires s.phase.Body? && s.chunked && OneLine(line) && ReadsZero(line) && TrailerLines(trailers)
    ensures Advance(s, EndText(line, trailers) + rest) == Go(Finish(s), |EndText(line, trailers)|)
  {
    hide SkipTrailers, Stoull, SizeText, TrailersText;
    var after := TrailersText(trailers) + rest;
    assert EndText(line, trailers) + rest == line + "\r\n" + after;
    ReadLine(line, after);
    TrailersSkipped(trailers, rest);
    SkipShift(line + "\r\n", after, 0);
  }

  lemma ZeroReadsZero()
    ensures ReadsZero("0") && OneLine("0") && EndText("0", []) == LAST_CHUNK
  {
    assert SizeText("0") == "0" by { assert Find("0", ';', 0) == 1; }
    ZeroSize();
  }

  lemma LastChunkStep(s: State, rest: string)
    requires s.phase.Body? && s.chunked
    ensures Advance(s, LAST_CHUNK + rest) == Go(Finish(s), |LAST_CHUNK|)
  {
    ZeroReadsZero();
    ZeroLineStep(s, "0", [], rest);
  }

  lemma AppendShape(s: State, data: string)
    ensures AppendBody(s, data).phase == s.phase && AppendBody(s, data).chunked == s.chunked
    ensures data == "" ==> AppendBody(s, data) == s
  {
    if data == "" { assert s.request.body + data == s.request.body; }
  }

  lemma AppendBodyTwice(s: State, a: string, b: string)
    ensures AppendBody(AppendBody(s, a), b) == AppendBody(s, a + b)
  {
    assert s.request.body + a + b == s.request.body + (a + b);
  }

  /** A chunked body, in any non-empty pieces, is the concatenation of the pieces; trailers are skipped. */
  lemma {:induction false} ChunkedBodyRoundTrip(s: State, pieces: seq<string>, trailers: seq<string>, rest: string)
    requires s.phase.Body? && s.chunked && TrailerLines(trailers)
    requires forall i :: 0 <= i < |pieces| ==> 0 < |pieces[i]| < SIZE_LIMIT
    ensures Run(s, ChunksText(pieces, trailers) + rest) == Run(Finish(AppendBody(s, Flatten(pieces))), rest)
    decreases |pieces|
  {
    hide Run, ContentLengthOnly, Advance, ChunkText, AppendBody, Finish, EndText, ReadsZero;
    if pieces == [] {
      ZeroReadsZero();
      ZeroLineStep(s, "0", trailers, rest);
      GoLeads(s, EndText("0", trailers), rest, Finish(s));
      AppendShape(s, "");
    } else {
      var piece, more := pieces[0], ChunksText(pieces[1..], trailers) + rest;
      var next := AppendBody(s, piece);
      AppendShape(s, piece);
      ChunkStep(s, piece, more);
      GoLeads(s, ChunkText(piece), more, next);
      assert ChunksText(pieces, trailers) + rest == ChunkText(piece) + more;
      ChunkedBodyRoundTrip(next, pieces[1..], trailers, rest);
      AppendBodyTwice(s, piece, Flatten(pieces[1..]));
    }
  }

  /** The writer's empty chunk is the end of the body: what follows it is read as the next request. */
  lemma EmptyChunkEndsBody(s: State, rest: string)
    requires s.phase.Body? && s.chunked
    ensures ChunkText("") == LAST_CHUNK && Run(s, ChunkText("") + rest) == Run(Finish(s), rest)
  {
    hide Run, ContentLengthOnly, Advance;
    assert Hex(0) == "0";
    assert ChunkText("") == LAST_CHUNK;
    LastChunkStep(s, rest);
    GoLeads(s, LAST_CHUNK, rest, Finish(s));
  }

  /** A size line is no request line. */
  lemma SizeLineIsNoRequest(s: State, n: nat, rest: string)
    requires s.phase.RequestLine? && n < SIZE_LIMIT
    ensures Run(s, Hex(n) + "\r\n" + rest).state.phase == Failed(-1)
  {
    hide Hex, HexDigit;
    HexRoundTrip(n);
    HexValue(n);
    LineStep(s, Hex(n), rest);
    forall i | 0 <= i < |Hex(n)| ensures Hex(n)[i] != ' ' {
      var d: nat :| d < 16 && Hex(n)[i] == HexDigit(d);
      HexDigitValue(d);
    }
    FindUnique(Hex(n), ' ', 0, |Hex(n)|);
  }

  lemma ChunksBeginWithSize(pieces: seq<string>, trailers: seq<string>, rest: string) returns (n: nat, more: string)
    requires forall i :: 0 <= i < |pieces| ==> |pieces[i]| < SIZE_LIMIT
    ensures n < SIZE_LIMIT && ChunksText(pieces, trailers) + rest == Hex(n) + "\r\n" + more
  {
    if pieces == [] {
      n, more := 0, TrailersText(trailers) + rest;
      assert Hex(0) == "0";
    } else {
      n, more := |pieces[0]|, pieces[0] + "\r\n" + ChunksText(pieces[1..], trailers) + rest;
    }
  }

  /** After an empty piece the next size line is read as a request line, and that fails. */
  lemma {:induction false} EmptyPieceFails(s: State, pieces: seq<string>, trailers: seq<string>, rest: string)
    requires s.phase.Body? && s.chunked
    requires forall i :: 0 <= i < |pieces| ==> |pieces[i]| < SIZE_LIMIT
    requires exists i :: 0 <= i < |pieces| && pieces[i] == ""
    ensures Run(s, ChunksText(pieces, trailers) + rest).state.phase == Failed(-1)
    decreases |pieces|
  {
    hide Run, ContentLengthOnly, Advance, ChunkText, AppendBody, Hex;
    var piece, more := pieces[0], ChunksText(pieces[1..], trailers) + rest;
    assert ChunksText(pieces, trailers) + rest == ChunkText(piece) + more;
    if piece == "" {
      EmptyChunkEndsBody(s, more);
      var n, tail := ChunksBeginWithSize(pieces[1..], trailers, rest);
      SizeLineIsNoRequest(Finish(s), n, tail);
    } else {
      ChunkStep(s, piece, more);
      GoLeads(s, ChunkText(piece), more, AppendBody(s, piece));
      AppendShape(s, piece);
      EmptyPieceFails(AppendBody(s, piece), pieces[1..], trailers, rest);
    }
  }

  /** The chunk writer and the chunk reader fit together if and only if no piece is empty. */
  lemma ChunkedBodyExact(s: State, pieces: seq<string>, trailers: seq<string>)
    requires s.phase.Body? && s.chunked && TrailerLines(trailers)
    requires forall i :: 0 <= i < |pieces| ==> |pieces[i]| < SIZE_LIMIT
    ensures Run(s, ChunksText(pieces, trailers)) == Outcome(Finish(AppendBody(s, Flatten(pieces))), "", false) <==>
            forall i :: 0 <= i < |pieces| ==> pieces[i] != ""
  {
    hide Run, ChunksText;
    assert ChunksText(pieces, trailers) + "" == ChunksText(pieces, trailers);
    if i :| 0 <= i < |pieces| && pieces[i] == "" {
      EmptyPieceFails(s, pieces, trailers, "");
    } else {
      ChunkedBodyRoundTrip(s, pieces, trailers, "");
      NothingToDo(Finish(AppendBody(s, Flatten(pieces))), "");
    }
  }

  // ---------------------------------------------------------------- messages and streams of them

  /** Between two requests. */
  predicate Ready(s: State) {
    s.phase.RequestLine? && s.request == NO_REQUEST && s.contentLength == 0 && !s.chunked
  }

  function Handling(s: State, m: Message): State {
    var h := Received(m, s.keepAlive);
    s.(keepAlive := h.keepAlive, handled := s.handled + [h])
  }

  lemma BodyStep(s: State, m: Message, rest: string)
    requires Ready(s) && Sendable(m)
    ensures var t := WithHeaders(s.(phase := Headers, request := NO_REQUEST.(verb := m.verb, path := m.path)),
            m.headers);
            && Run(AfterHeaders(t), BodyText(m.framing) + rest) == Run(Handling(s, m), rest)
            && (m.framing.Sized? ==> Leads(AfterHeaders(t), BodyText(m.framing) + rest, Handling(s, m), rest))
  {
    hide Run, ContentLengthOnly, LastValue, LastAlive, SaysChunked, LengthsParse, DeclaredLength, Plain;
    var t := WithHeaders(s.(phase := Headers, request := NO_REQUEST.(verb := m.verb, path := m.path)), m.headers);
    assert NO_REQUEST.headers + m.headers == m.headers;
    match m.framing
    case Sized(body) =>
      if body == "" {
        assert body + rest == rest;
      } else {
        var before := t.(phase := Body);
        assert (body + rest)[..|body|] == body;
        assert "" + body == body;
        GoLeads(before, body, rest, Finish(AppendBody(before, body)));
      }
    case Chunks(pieces, trailers) =>
      ChunkedBodyRoundTrip(t.(phase := Body), pieces, trailers, rest);
      assert "" + Flatten(pieces) == Flatten(pieces);
  }

  /** One request in front of anything is handed over as it was written, and the parser is ready for the next. */
  lemma MessageRoundTrip(s: State, m: Message, rest: string)
    requires Ready(s) && Sendable(m)
    ensures Run(s, MessageText(m) + rest) == Run(Handling(s, m), rest) && Ready(Handling(s, m))
    ensures m.framing.Sized? ==> Leads(s, MessageText(m) + rest, Handling(s, m), rest)
  {
    hide Run, ContentLengthOnly, Advance, WithHeaders, HeadersText, LineText, BodyText, OnRequestLine, Plain,
        AfterHeaders;
    var t := s.(phase := Headers, request := NO_REQUEST.(verb := m.verb, path := m.path));
    var body := BodyText(m.framing) + rest;
    var more := HeadersText(m.headers) + body;
    RequestLineStep(s, m);
    LineStep(s, LineText(m), more);
    GoLeads(s, LineText(m) + "\r\n", more, t);
    assert MessageText(m) + rest == LineText(m) + "\r\n" + more;
    HeadersStep(t, m.headers, body);
    BodyStep(s, m, rest);
    if m.framing.Sized? { NotChunkedAfter(t, m.headers); }
  }

  lemma NotChunkedAfter(t: State, headers: seq<Header>)
    requires !t.chunked && !SaysChunked(headers)
    ensures !AfterHeaders(WithHeaders(t, headers)).chunked
  {
  }

  function StreamText(ms: seq<Message>): string {
    if ms == [] then "" else MessageText(ms[0]) + StreamText(ms[1..])
  }

  function HandlingAll(s: State, ms: seq<Message>): State
    decreases |ms|
  {
    if ms == [] then s else HandlingAll(Handling(s, ms[0]), ms[1..])
  }

  /** Pipelined requests reach the application one by one, in order, each as it was written. */
  lemma {:induction false} PipelineRoundTrip(s: State, ms: seq<Message>)
    requires Ready(s) && forall i :: 0 <= i < |ms| ==> Sendable(ms[i])
    ensures Run(s, StreamText(ms)) == Outcome(HandlingAll(s, ms), "", false)
    ensures (forall i :: 0 <= i < |ms| ==> ms[i].framing.Sized?) ==> ContentLengthOnly(s, StreamText(ms))
    decreases |ms|
  {
    hide Run, MessageText, Handling, Sendable, ContentLengthOnly;
    if ms == [] {
      NothingToDo(s, "");
      EmptyIsFramed(s);
    } else {
      MessageRoundTrip(s, ms[0], StreamText(ms[1..]));
      PipelineRoundTrip(Handling(s, ms[0]), ms[1..]);
    }
  }

  lemma EmptyIsFramed(s: State)
    requires Ready(s)
    ensures ContentLengthOnly(s, "")
  {
  }

  /** Sized requests may arrive in any pieces. */
  lemma RequestsInPieces(ms: seq<Message>, pieces: seq<string>)
    requires forall i :: 0 <= i < |ms| ==> Sendable(ms[i]) && ms[i].framing.Sized?
    requires Flatten(pieces) == StreamText(ms)
    ensures FeedPieces(INITIAL, "", pieces) == HandlingAll(INITIAL, ms)
  {
    hide Run, Sendable, ContentLengthOnly, Handling;
    PipelineRoundTrip(INITIAL, ms);
    ContentLengthPieces(pieces);
  }
}
