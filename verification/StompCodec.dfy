/**
 The STOMP 1.2 wire format: header escaping, frame serialization and the incremental decoder.

 The decoder object is proved against the function `Decode` of its whole unread buffer. Two theorems
 are about that function: `ChunkingIrrelevant` (a stream that decodes in one piece decodes the same
 way in every partition) and `RoundTripInPieces` (serialized frames come back, however they are cut).
 */
module StompCodec {
  import opened Common
  import opened Decimal

  datatype Frame = Frame(command: string, headers: map<string, string>, body: string)

  const CONTENT_LENGTH := "content-length"

  function HeaderOf(f: Frame, name: string): string { if name in f.headers then f.headers[name] else "" }

  // ---------------------------------------------------------------- header escaping

  function EscapeChar(c: char): (r: string)
    ensures '\n' !in r && '\r' !in r && ':' !in r && r != []
  {
    match c
    case '\\' => "\\\\"
    case '\n' => "\\n"
    case '\r' => "\\r"
    case ':' => "\\c"
    case _ => [c]
  }

  function Escape(s: string): (r: string)
    ensures '\n' !in r && '\r' !in r && ':' !in r && (s != [] ==> r != [])
  {
    if s == [] then [] else EscapeChar(s[0]) + Escape(s[1..])
  }

  function UnescapeCode(c: char): Option<char> {
    match c
    case '\\' => Some('\\')
    case 'n' => Some('\n')
    case 'r' => Some('\r')
    case 'c' => Some(':')
    case _ => None
  }

  /** `None` stands for both parse errors: a trailing backslash and an unknown escape. */
  function Unescape(s: string): Option<string> {
    if s == [] then Some([])
    else if s[0] != '\\' then Prepend(s[0], Unescape(s[1..]))
    else if |s| == 1 || UnescapeCode(s[1]).None? then None
    else Prepend(UnescapeCode(s[1]).value, Unescape(s[2..]))
  }

  function Prepend(c: char, r: Option<string>): Option<string> {
    Attach([c], r)
  }

  function Attach(front: string, r: Option<string>): Option<string> {
    if r.None? then None else Some(front + r.value)
  }

  lemma AttachAttach(a: string, b: string, r: Option<string>)
    ensures Attach(a, Attach(b, r)) == Attach(a + b, r)
    ensures Attach("", r) == r
  {
    if r.Some? {
      assert "" + r.value == r.value;
      assert a + (b + r.value) == a + b + r.value;
    }
  }

  method EscapeText(value: string) returns (result: string)
    ensures result == Escape(value)
  {
    result := "";
    for i := 0 to |value|
      invariant result == Escape(value[..i])
    {
      assert value[..i + 1] == value[..i] + [value[i]];
      EscapeSnoc(value[..i], value[i]);
      result := result + EscapeChar(value[i]);
    }
    assert value[..|value|] == value;
  }

  lemma {:induction false} EscapeSnoc(s: string, c: char)
    ensures Escape(s + [c]) == Escape(s) + EscapeChar(c)
  {
    if s == [] {
      assert [c][1..] == [];
    } else {
      assert (s + [c])[1..] == s[1..] + [c];
      EscapeSnoc(s[1..], c);
    }
  }

  method UnescapeText(value: string) returns (result: Option<string>)
    ensures result == Unescape(value)
  {
    var text := "";
    var i := 0;
    assert value[0..] == value;
    AttachAttach("", "", Unescape(value));
    while i < |value|
      invariant 0 <= i <= |value|
      invariant Unescape(value) == Attach(text, Unescape(value[i..]))
    {
      ghost var tail := value[i..];
      assert tail[1..] == value[i + 1..];
      if value[i] != '\\' {
        AttachAttach(text, [value[i]], Unescape(value[i + 1..]));
        text := text + [value[i]];
        i := i + 1;
        continue;
      }
      i := i + 1;
      if i == |value| { return None; }
      var decoded := UnescapeCode(value[i]);
      if decoded.None? { return None; }
      assert tail[2..] == value[i + 1..];
      AttachAttach(text, [decoded.value], Unescape(value[i + 1..]));
      text := text + [decoded.value];
      i := i + 1;
    }
    assert text + [] == text;
    result := Some(text);
  }

  /** STOMP 1.2 "Value Encoding": unescaping undoes escaping on every string. */
  lemma {:induction false} UnescapeOfEscape(s: string)
    ensures Unescape(Escape(s)) == Some(s)
  {
    if s != [] {
      UnescapeOfEscape(s[1..]);
      var head := EscapeChar(s[0]);
      var e := head + Escape(s[1..]);
      assert e[|head|..] == Escape(s[1..]);
      assert s == [s[0]] + s[1..];
      assert |head| == 1 || (|head| == 2 && e[0] == '\\' && e[1] == head[1]);
    }
  }

  // ---------------------------------------------------------------- the decoder's specification

  function StripCr(line: string): (r: string)
    ensures |r| <= |line|
  {
    if line != [] && line[|line| - 1] == '\r' then line[..|line| - 1] else line
  }

  /** Drops leading LFs. */
  function StripLf(s: string): (r: string)
    ensures |r| <= |s| && (r != [] ==> r[0] != '\n')
  {
    if s != [] && s[0] == '\n' then StripLf(s[1..]) else s
  }

  predicate StartsWithCrLf(s: string) { |s| >= 2 && s[0] == '\r' && s[1] == '\n' }

  /** Drops leading CRLF pairs. */
  function StripCrLf(s: string): (r: string)
    ensures |r| <= |s| && !StartsWithCrLf(r)
  {
    if StartsWithCrLf(s) then StripCrLf(s[2..]) else s
  }

  /** Heartbeats between frames: first every LF, then every CRLF, and never an LF after a CRLF. */
  function StripHeartbeats(s: string): (r: string)
    ensures |r| <= |s|
  {
    StripCrLf(StripLf(s))
  }

  datatype HeaderLine = BadLine | Header(name: string, value: string)

  function ParseHeaderLine(line: string): HeaderLine {
    var colon := Find(line, ':', 0);
    if colon == |line| || colon == 0 then BadLine
    else
      var name, value := Unescape(line[..colon]), Unescape(line[colon + 1..]);
      if name.None? || value.None? then BadLine else Header(name.value, value.value)
  }

  datatype Parsed<T> = NeedMore | Malformed | Ok(value: T, rest: string)

  /** The header section of `s`, up to and including its blank line. */
  function ParseHeaders(s: string, headers: map<string, string>): (r: Parsed<map<string, string>>)
    ensures r.Ok? ==> |r.rest| < |s|
    decreases |s|
  {
    var end := Find(s, '\n', 0);
    if end == |s| then NeedMore
    else
      var line := StripCr(s[..end]);
      if line == [] then Ok(headers, s[end + 1..])
      else
        match ParseHeaderLine(line)
        case BadLine => Malformed
        case Header(name, value) => ParseHeaders(s[end + 1..], headers[name := value])
  }

  function ParseBody(s: string, headers: map<string, string>): (r: Parsed<string>)
    ensures r.Ok? ==> |r.rest| < |s|
  {
    if CONTENT_LENGTH in headers then
      match ParseSize(headers[CONTENT_LENGTH])
      case None => Malformed
      case Some(size) =>
        if |s| < size + 1 then NeedMore
        else if s[size] != '\0' then Malformed
        else Ok(s[..size], s[size + 1..])
    else
      var end := Find(s, '\0', 0);
      if end == |s| then NeedMore else Ok(s[..end], s[end + 1..])
  }

  /** One frame at the front of a buffer from which heartbeats have been removed. */
  function ParseFrame(s: string): (r: Parsed<Frame>)
    ensures r.Ok? ==> |r.rest| < |s|
  {
    var end := Find(s, '\n', 0);
    if end == |s| then NeedMore
    else if StripCr(s[..end]) == [] then Malformed
    else
      match ParseHeaders(s[end + 1..], map[])
      case NeedMore => NeedMore
      case Malformed => Malformed
      case Ok(headers, rest) =>
        match ParseBody(rest, headers)
        case NeedMore => NeedMore
        case Malformed => Malformed
        case Ok(body, rest') => Ok(Frame(StripCr(s[..end]), headers, body), rest')
  }

  /** The result of one feed over everything buffered. A failing feed yields no frames at all. */
  datatype Decoding = Failed | Decoded(frames: seq<Frame>, rest: string)

  function Cons(frame: Frame, d: Decoding): Decoding {
    match d
    case Failed => Failed
    case Decoded(frames, rest) => Decoded([frame] + frames, rest)
  }

  function Decode(buffer: string): (d: Decoding)
    decreases |buffer|
  {
    var s := StripHeartbeats(buffer);
    match ParseFrame(s)
    case NeedMore => Decoded([], s)
    case Malformed => Failed
    case Ok(frame, rest) => Cons(frame, Decode(rest))
  }

  // ---------------------------------------------------------------- the decoder object

  /** One step of `ParseHeaders`, told by positions in the buffer. */
  lemma HeadersAt(buffer: string, cursor: nat, headers: map<string, string>)
    requires cursor <= |buffer|
    ensures var end := Find(buffer, '\n', cursor);
            ParseHeaders(buffer[cursor..], headers) ==
            if end == |buffer| then NeedMore
            else
              var line := StripCr(buffer[cursor..end]);
              if line == [] then Ok(headers, buffer[end + 1..])
              else match ParseHeaderLine(line)
                   case BadLine => Malformed
                   case Header(name, value) => ParseHeaders(buffer[end + 1..], headers[name := value])
  {
    hide ParseHeaderLine, StripCr;
    var end, window := Find(buffer, '\n', cursor), buffer[cursor..];
    FindShift(buffer, '\n', cursor);
    hide Find;
    if end < |buffer| {
      assert window[..end - cursor] == buffer[cursor..end];
      assert window[end - cursor + 1..] == buffer[end + 1..];
    }
  }

  /** Reads header lines by index, as the inner loop of the decoder does. */
  method ReadHeaders(buffer: string, start: nat) returns (outcome: Parsed<map<string, string>>)
    requires start <= |buffer|
    ensures outcome == ParseHeaders(buffer[start..], map[])
  {
    hide ParseHeaders, ParseHeaderLine, StripCr;
    var headers := map[];
    var cursor := start;
    ghost var expected := ParseHeaders(buffer[start..], headers);
    while true
      invariant start <= cursor <= |buffer|
      invariant expected == ParseHeaders(buffer[cursor..], headers)
      decreases |buffer| - cursor
    {
      HeadersAt(buffer, cursor, headers);
      var end := Find(buffer, '\n', cursor);
      if end == |buffer| { return NeedMore; }
      var line := StripCr(buffer[cursor..end]);
      cursor := end + 1;
      if line == "" { return Ok(headers, buffer[cursor..]); }
      var header := ReadHeaderLine(line);
      if header.BadLine? { return Malformed; }
      headers := headers[header.name := header.value];
    }
  }

  method ReadHeaderLine(line: string) returns (header: HeaderLine)
    ensures header == ParseHeaderLine(line)
  {
    var colon := Find(line, ':', 0);
    if colon == |line| || colon == 0 { return BadLine; }
    var name := UnescapeText(line[..colon]);
    var value := UnescapeText(line[colon + 1..]);
    if name.None? || value.None? { return BadLine; }
    header := Header(name.value, value.value);
  }

  lemma FindShift(s: string, c: char, from: nat)
    requires from <= |s|
    ensures Find(s, c, from) == from + Find(s[from..], c, 0)
  {
    var r := Find(s[from..], c, 0);
    forall i | from <= i < from + r ensures s[i] != c { assert s[i] == s[from..][i - from]; }
    FindUnique(s, c, from, from + r);
  }

  class Decoder {
    var buffer: string
    var failed: bool

    constructor ()
      ensures buffer == "" && !failed
    {
      buffer, failed := "", false;
    }

    /** `None` is a parse error; it is permanent. */
    method Feed(bytes: string) returns (result: Option<seq<Frame>>)
      modifies this
      ensures old(failed) ==> result == None && failed && buffer == old(buffer)
      ensures !old(failed) && Decode(old(buffer) + bytes).Failed? ==> result == None && failed
      ensures !old(failed) && Decode(old(buffer) + bytes).Decoded? ==>
                var d := Decode(old(buffer) + bytes);
                result == Some(d.frames) && buffer == d.rest && !failed
    {
      hide ParseHeaders, ParseBody, StripHeartbeats, StripCr;
      if failed { return None; }
      buffer := buffer + bytes;
      ghost var whole := Decode(buffer);
      var frames: seq<Frame> := [];
      while true
        invariant !failed
        invariant whole == Prefixed(frames, Decode(buffer))
        decreases |buffer|
      {
        EraseHeartbeats();
        assert frames + [] == frames;
        var end := Find(buffer, '\n', 0);
        if end == |buffer| { return Some(frames); }
        var command := StripCr(buffer[..end]);
        if command == "" { failed := true; return None; }
        var headers := ReadHeaders(buffer, end + 1);
        if headers.NeedMore? { return Some(frames); }
        if headers.Malformed? { failed := true; return None; }
        var body := ParseBody(headers.rest, headers.value);
        if body.NeedMore? { return Some(frames); }
        if body.Malformed? { failed := true; return None; }
        PrefixedStep(frames, Frame(command, headers.value, body.value), Decode(body.rest));
        frames := frames + [Frame(command, headers.value, body.value)];
        buffer := body.rest;
      }
    }

    method EraseHeartbeats()
      modifies this`buffer
      ensures buffer == StripHeartbeats(old(buffer))
    {
      while buffer != "" && buffer[0] == '\n'
        invariant StripLf(buffer) == StripLf(old(buffer))
        decreases |buffer|
      {
        buffer := buffer[1..];
      }
      while |buffer| >= 2 && buffer[0] == '\r' && buffer[1] == '\n'
        invariant StripCrLf(buffer) == StripHeartbeats(old(buffer))
        decreases |buffer|
      {
        buffer := buffer[2..];
      }
    }
  }

  function Prefixed(frames: seq<Frame>, d: Decoding): Decoding {
    match d
    case Failed => Failed
    case Decoded(more, rest) => Decoded(frames + more, rest)
  }

  lemma PrefixedStep(frames: seq<Frame>, f: Frame, d: Decoding)
    ensures Prefixed(frames, Cons(f, d)) == Prefixed(frames + [f], d)
  {
    if d.Decoded? {
      assert frames + ([f] + d.frames) == frames + [f] + d.frames;
    }
  }

  // ---------------------------------------------------------------- chunking

  lemma FindExtend(s: string, t: string, c: char)
    requires Find(s, c, 0) < |s|
    ensures Find(s + t, c, 0) == Find(s, c, 0)
  {
    FindUnique(s + t, c, 0, Find(s, c, 0));
  }

  /** A verdict on part of the input is the verdict on every extension of it. */
  ghost predicate SameVerdict<T>(part: Parsed<T>, whole: Parsed<T>, more: string) {
    match part
    case NeedMore => true
    case Malformed => whole.Malformed?
    case Ok(value, rest) => whole == Ok(value, rest + more)
  }

  lemma {:induction false} HeadersExtend(s: string, t: string, headers: map<string, string>)
    ensures SameVerdict(ParseHeaders(s, headers), ParseHeaders(s + t, headers), t)
    decreases |s|
  {
    var end := Find(s, '\n', 0);
    if end < |s| {
      FindExtend(s, t, '\n');
      assert (s + t)[..end] == s[..end];
      assert (s + t)[end + 1..] == s[end + 1..] + t;
      var line := StripCr(s[..end]);
      if line != [] && ParseHeaderLine(line).Header? {
        var h := ParseHeaderLine(line);
        HeadersExtend(s[end + 1..], t, headers[h.name := h.value]);
      }
    }
  }

  lemma BodyExtend(s: string, t: string, headers: map<string, string>)
    ensures SameVerdict(ParseBody(s, headers), ParseBody(s + t, headers), t)
  {
    var r := ParseBody(s, headers);
    if CONTENT_LENGTH !in headers && r.Ok? {
      FindExtend(s, t, '\0');
    }
    if r.Ok? {
      var size := |r.value|;
      assert (s + t)[..size] == s[..size];
      assert (s + t)[size + 1..] == s[size + 1..] + t;
    }
  }

  lemma FrameExtend(s: string, t: string)
    ensures SameVerdict(ParseFrame(s), ParseFrame(s + t), t)
  {
    var end := Find(s, '\n', 0);
    if end < |s| {
      FindExtend(s, t, '\n');
      assert (s + t)[..end] == s[..end];
      assert (s + t)[end + 1..] == s[end + 1..] + t;
      HeadersExtend(s[end + 1..], t, map[]);
      var h := ParseHeaders(s[end + 1..], map[]);
      if h.Ok? { BodyExtend(h.rest, t, h.value); }
    }
  }

  lemma {:induction false} StripLfExtend(s: string, t: string)
    ensures StripLf(s + t) == if StripLf(s) == [] then StripLf(t) else StripLf(s) + t
  {
    if s == [] {
      assert s + t == t;
    } else if s[0] == '\n' {
      assert (s + t)[1..] == s[1..] + t;
      StripLfExtend(s[1..], t);
    }
  }

  lemma {:induction false} StripCrLfExtend(s: string, t: string)
    ensures StripCrLf(s + t) == StripCrLf(StripCrLf(s) + t)
    decreases |s|
  {
    if StartsWithCrLf(s) {
      assert (s + t)[2..] == s[2..] + t;
      StripCrLfExtend(s[2..], t);
    }
  }

  predicate StartsWithLf(s: string) { s != [] && s[0] == '\n' }

  /** Stripping early and stripping late agree, except where an LF follows a CRLF heartbeat. */
  lemma StripExtend(p: string, q: string)
    ensures var b := StripHeartbeats(p);
            if StartsWithLf(b) then StartsWithLf(StripHeartbeats(p + q))
            else StartsWithLf(StripHeartbeats(p + q)) || StripHeartbeats(p + q) == StripHeartbeats(b + q)
  {
    StripLfExtend(p, q);
    var l := StripLf(p);
    if l == [] {
      assert [] + q == q;
    } else {
      StripCrLfExtend(l, q);
    }
  }

  lemma LeadingLfFails(buffer: string)
    requires StartsWithLf(StripHeartbeats(buffer))
    ensures Decode(buffer).Failed?
  {
    var s := StripHeartbeats(buffer);
    assert Find(s, '\n', 0) == 0;
  }

  lemma StrippedStays(b: string, q: string)
    requires Find(b, '\n', 0) < |b| && !StartsWithLf(b) && !StartsWithCrLf(b)
    ensures StripHeartbeats(b + q) == b + q
  {
    assert |b| >= 2;
    assert (b + q)[0] == b[0] && (b + q)[1] == b[1];
  }

  /** Cutting a decodable stream in two and feeding the halves gives the frames of the whole. */
  lemma {:induction false} CutInTwo(p: string, q: string)
    requires Decode(p + q).Decoded?
    ensures Decode(p).Decoded?
    ensures Decode(p + q) == Prefixed(Decode(p).frames, Decode(Decode(p).rest + q))
    decreases |p|
  {
    var b := StripHeartbeats(p);
    StripExtend(p, q);
    if StartsWithLf(StripHeartbeats(p + q)) { LeadingLfFails(p + q); }
    assert Decode(p + q) == Decode(b + q);
    if ParseFrame(b).NeedMore? {
      PrefixedNothing(Decode(b + q));
    } else {
      StrippedStays(b, q);
      FrameExtend(b, q);
      var r := ParseFrame(b);
      CutInTwo(r.rest, q);
      var d := Decode(r.rest);
      PrefixedCons(r.value, d.frames, Decode(d.rest + q));
    }
  }

  lemma PrefixedNothing(d: Decoding)
    ensures Prefixed([], d) == d
  {
    if d.Decoded? { assert [] + d.frames == d.frames; }
  }

  lemma PrefixedCons(f: Frame, frames: seq<Frame>, d: Decoding)
    ensures Cons(f, Prefixed(frames, d)) == Prefixed([f] + frames, d)
  {
    if d.Decoded? { assert [f] + (frames + d.frames) == [f] + frames + d.frames; }
  }

  /** Successive feeds of one decoder, their frames concatenated. */
  function FeedPieces(buffer: string, pieces: seq<string>): Decoding
    decreases |pieces|
  {
    if pieces == [] then Decoded([], buffer)
    else
      match Decode(buffer + pieces[0])
      case Failed => Failed
      case Decoded(frames, rest) => Prefixed(frames, FeedPieces(rest, pieces[1..]))
  }

  lemma {:induction false} RestIsSettled(buffer: string)
    requires Decode(buffer).Decoded?
    ensures Decode(Decode(buffer).rest) == Decoded([], Decode(buffer).rest)
    decreases |buffer|
  {
    var s := StripHeartbeats(buffer);
    var r := ParseFrame(s);
    if r.Ok? {
      RestIsSettled(r.rest);
    } else if StartsWithLf(s) {
      LeadingLfFails(buffer);
    }
  }

  lemma {:induction false} FeedPiecesIsDecode(buffer: string, pieces: seq<string>)
    requires Decode(buffer) == Decoded([], buffer)
    requires Decode(buffer + Flatten(pieces)).Decoded?
    ensures FeedPieces(buffer, pieces) == Decode(buffer + Flatten(pieces))
    decreases |pieces|
  {
    if pieces == [] {
      assert buffer + [] == buffer;
    } else {
      var p, q := buffer + pieces[0], Flatten(pieces[1..]);
      assert buffer + Flatten(pieces) == p + q;
      CutInTwo(p, q);
      RestIsSettled(p);
      FeedPiecesIsDecode(Decode(p).rest, pieces[1..]);
    }
  }

  /** Every partition of a stream that one feed accepts yields the same frames and the same rest. */
  lemma ChunkingIrrelevant(pieces: seq<string>)
    requires Decode(Flatten(pieces)).Decoded?
    ensures FeedPieces("", pieces) == Decode(Flatten(pieces))
  {
    assert "" + Flatten(pieces) == Flatten(pieces);
    FeedPiecesIsDecode("", pieces);
  }

  /** The premise matters: a CRLF heartbeat and then an LF one fail together and pass apart. */
  lemma HeartbeatOrderMatters()
    ensures Decode("\r\n\n").Failed?
    ensures FeedPieces("", ["\r\n", "\n"]) == Decoded([], "")
  {
    var whole := "\r\n\n";
    assert whole[2..] == "\n";
    assert StripHeartbeats(whole) == "\n";
    LeadingLfFails(whole);
    assert "" + "\r\n" == "\r\n" && "\r\n"[2..] == "" && "" + "\n" == "\n" && "\n"[1..] == "";
    assert Decode("\r\n") == Decoded([], "");
    assert Decode("\n") == Decoded([], "");
    assert ["\r\n", "\n"][1..] == ["\n"] && ["\n"][1..] == [];
    assert FeedPieces("", ["\n"]) == Decoded([], "");
  }

  // ---------------------------------------------------------------- serialization

  function HeaderLineText(name: string, value: string): string {
    Escape(name) + ":" + Escape(value)
  }

  function HeaderText(headers: map<string, string>, order: seq<string>): string
    requires forall name :: name in order ==> name in headers
  {
    if order == [] then ""
    else HeaderLineText(order[0], headers[order[0]]) + "\n" + HeaderText(headers, order[1..])
  }

  predicate NeedsLength(f: Frame) { '\0' in f.body && CONTENT_LENGTH !in f.headers }

  function LengthLine(f: Frame): string {
    if NeedsLength(f) then CONTENT_LENGTH + ":" + ToText(|f.body|) + "\n" else ""
  }

  function Serialize(f: Frame, order: seq<string>): string
    requires forall name :: name in order ==> name in f.headers
  {
    f.command + "\n" + (HeaderText(f.headers, order) + (LengthLine(f) + ("\n" + (f.body + "\0"))))
  }

  method SerializeFrame(f: Frame, order: seq<string>) returns (result: string)
    requires Lists(order, f.headers)
    ensures result == Serialize(f, order)
  {
    var lines := "";
    var hasLength := false;
    for i := 0 to |order|
      invariant hasLength <==> CONTENT_LENGTH in order[..i]
      invariant lines == HeaderText(f.headers, order[..i])
    {
      var name := order[i];
      assert name in order;
      assert order[..i + 1] == order[..i] + [name];
      HeaderTextSnoc(f.headers, order[..i], name);
      hasLength := hasLength || name == CONTENT_LENGTH;
      var escapedName := EscapeText(name);
      var escapedValue := EscapeText(f.headers[name]);
      lines := lines + (escapedName + ":" + escapedValue + "\n");
    }
    assert order[..|order|] == order;
    var length := "";
    if '\0' in f.body && !hasLength {
      length := CONTENT_LENGTH + ":" + ToText(|f.body|) + "\n";
    }
    result := f.command + "\n" + (lines + (length + ("\n" + (f.body + "\0"))));
  }

  lemma {:induction false} HeaderTextSnoc(headers: map<string, string>, order: seq<string>, name: string)
    requires forall n :: n in order ==> n in headers
    requires name in headers
    ensures HeaderText(headers, order + [name]) ==
            HeaderText(headers, order) + (HeaderLineText(name, headers[name]) + "\n")
    decreases |order|
  {
    if order == [] {
      assert order + [name] == [name] && [name][1..] == [];
    } else {
      assert (order + [name])[1..] == order[1..] + [name];
      HeaderTextSnoc(headers, order[1..], name);
    }
  }

  /** What the peer decodes: a body holding NUL acquires a content-length. */
  function Normalized(f: Frame): Frame {
    if NeedsLength(f) then f.(headers := f.headers[CONTENT_LENGTH := ToText(|f.body|)]) else f
  }

  /** The frames the format can carry. */
  predicate Encodable(f: Frame) {
    && f.command != [] && '\n' !in f.command && f.command[|f.command| - 1] != '\r'
    && "" !in f.headers
    && (CONTENT_LENGTH in f.headers ==> ParseSize(f.headers[CONTENT_LENGTH]) == Some(|f.body|))
  }

  lemma {:induction false} UnescapePlain(s: string)
    requires '\\' !in s
    ensures Unescape(s) == Some(s)
  {
    if s != [] {
      assert s == [s[0]] + s[1..];
      UnescapePlain(s[1..]);
    }
  }

  lemma HeaderLineRoundTrip(name: string, value: string)
    ensures var line := HeaderLineText(name, value);
            ParseHeaderLine(line) == if name == [] then BadLine else Header(name, value)
  {
    var n, v := Escape(name), Escape(value);
    var line := HeaderLineText(name, value);
    forall i | 0 <= i < |n| ensures line[i] != ':' { assert line[i] == n[i] && n[i] in n; }
    FindUnique(line, ':', 0, |n|);
    assert line[..|n|] == n && line[|n| + 1..] == v;
    UnescapeOfEscape(name);
    UnescapeOfEscape(value);
  }

  lemma LineThenRest(line: string, rest: string, headers: map<string, string>)
    requires line != [] && '\n' !in line && line[|line| - 1] != '\r'
    ensures var s := line + "\n" + rest;
            ParseHeaders(s, headers) ==
            match ParseHeaderLine(line)
            case BadLine => Malformed
            case Header(name, value) => ParseHeaders(rest, headers[name := value])
  {
    hide ParseHeaderLine;
    var s := line + "\n" + rest;
    forall i | 0 <= i < |line| ensures s[i] != '\n' { assert s[i] == line[i] && line[i] in line; }
    FindUnique(s, '\n', 0, |line|);
    assert s[..|line|] == line && s[|line| + 1..] == rest;
  }

  lemma HeaderLineShape(name: string, value: string)
    ensures var line := HeaderLineText(name, value);
            line != [] && '\n' !in line && line[|line| - 1] != '\r'
  {
    var line := HeaderLineText(name, value);
    var last := line[|line| - 1];
    assert last in line;
    assert line == Escape(name) + [':'] + Escape(value);
  }

  function Assigned(acc: map<string, string>, headers: map<string, string>, order: seq<string>): map<string, string>
    requires forall name :: name in order ==> name in headers
    decreases |order|
  {
    if order == [] then acc
    else Assigned(acc[order[0] := headers[order[0]]], headers, order[1..])
  }

  lemma {:induction false} AssignedIs(acc: map<string, string>, headers: map<string, string>, order: seq<string>)
    requires forall name :: name in order ==> name in headers
    ensures forall name :: name in Assigned(acc, headers, order) <==> name in acc || name in order
    ensures forall name :: name in Assigned(acc, headers, order) ==>
              Assigned(acc, headers, order)[name] == if name in order then headers[name] else acc[name]
    decreases |order|
  {
    if order != [] {
      AssignedIs(acc[order[0] := headers[order[0]]], headers, order[1..]);
      assert forall name :: name in order <==> name == order[0] || name in order[1..];
    }
  }

  lemma {:induction false} HeadersRoundTrip(
    headers: map<string, string>, order: seq<string>, rest: string, acc: map<string, string>)
    requires forall name :: name in order ==> name in headers
    ensures ParseHeaders(HeaderText(headers, order) + rest, acc) ==
            if "" in order then Malformed else ParseHeaders(rest, Assigned(acc, headers, order))
    decreases |order|
  {
    hide ParseHeaders, ParseHeaderLine, Escape, HeaderLineText;
    if order == [] {
      assert "" + rest == rest;
    } else {
      var name := order[0];
      var line := HeaderLineText(name, headers[name]);
      var tail := HeaderText(headers, order[1..]) + rest;
      assert HeaderText(headers, order) + rest == line + "\n" + tail;
      HeaderLineShape(name, headers[name]);
      HeaderLineRoundTrip(name, headers[name]);
      LineThenRest(line, tail, acc);
      HeadersRoundTrip(headers, order[1..], rest, acc[name := headers[name]]);
      assert "" in order <==> name == "" || "" in order[1..];
    }
  }

  lemma LengthLineRoundTrip(f: Frame, rest: string, acc: map<string, string>)
    requires NeedsLength(f)
    ensures ParseHeaders(LengthLine(f) + rest, acc) == ParseHeaders(rest, acc[CONTENT_LENGTH := ToText(|f.body|)])
  {
    hide ParseHeaders, ParseHeaderLine, ToText;
    var digits := ToText(|f.body|);
    var line := CONTENT_LENGTH + ":" + digits;
    PlainHeaderLine(CONTENT_LENGTH, digits);
    assert forall c :: c in line ==> c in CONTENT_LENGTH || c == ':' || c in digits;
    assert line[|line| - 1] in digits;
    assert LengthLine(f) + rest == line + "\n" + rest;
    LineThenRest(line, rest, acc);
  }

  lemma PlainHeaderLine(name: string, value: string)
    requires name != [] && ':' !in name && '\\' !in name && '\\' !in value
    ensures ParseHeaderLine(name + ":" + value) == Header(name, value)
  {
    var line := name + ":" + value;
    forall i | 0 <= i < |name| ensures line[i] != ':' { assert line[i] == name[i] && name[i] in name; }
    FindUnique(line, ':', 0, |name|);
    assert line[..|name|] == name && line[|name| + 1..] == value;
    UnescapePlain(name);
    UnescapePlain(value);
  }

  /** The header section of a serialized frame. */
  lemma SectionRoundTrip(f: Frame, order: seq<string>, rest: string)
    requires Lists(order, f.headers)
    ensures ParseHeaders(HeaderText(f.headers, order) + (LengthLine(f) + ("\n" + rest)), map[]) ==
            if "" in f.headers then Malformed else Ok(Normalized(f).headers, rest)
  {
    hide ParseHeaders, HeaderText, Assigned;
    var blank := "\n" + rest;
    HeadersRoundTrip(f.headers, order, LengthLine(f) + blank, map[]);
    AssignedIs(map[], f.headers, order);
    assert Assigned(map[], f.headers, order) == f.headers;
    LengthAndBlank(f, rest);
  }

  lemma LengthAndBlank(f: Frame, rest: string)
    ensures ParseHeaders(LengthLine(f) + ("\n" + rest), f.headers) == Ok(Normalized(f).headers, rest)
  {
    var blank := "\n" + rest;
    if NeedsLength(f) {
      LengthLineRoundTrip(f, blank, f.headers);
    } else {
      assert LengthLine(f) + blank == blank;
    }
    assert Find(blank, '\n', 0) == 0 && blank[..0] == [] && blank[1..] == rest;
  }

  lemma BodyRoundTrip(f: Frame, rest: string)
    requires |f.body| < SIZE_LIMIT
    requires CONTENT_LENGTH in f.headers ==> ParseSize(f.headers[CONTENT_LENGTH]) == Some(|f.body|)
    ensures ParseBody(f.body + "\0" + rest, Normalized(f).headers) == Ok(f.body, rest)
  {
    var s := f.body + "\0" + rest;
    var n := |f.body|;
    assert s[..n] == f.body && s[n] == '\0' && s[n + 1..] == rest;
    if CONTENT_LENGTH !in f.headers {
      if '\0' in f.body {
        ParseOfText(n);
      } else {
        forall i | 0 <= i < n ensures s[i] != '\0' { assert s[i] == f.body[i] && f.body[i] in f.body; }
        FindUnique(s, '\0', 0, n);
      }
    }
  }

  lemma CommandLine(command: string, section: string)
    requires '\n' !in command
    ensures var s := command + "\n" + section;
            Find(s, '\n', 0) == |command| && s[..|command|] == command && s[|command| + 1..] == section
  {
    var s := command + "\n" + section;
    forall i | 0 <= i < |command| ensures s[i] != '\n' { assert s[i] == command[i] && command[i] in command; }
    FindUnique(s, '\n', 0, |command|);
  }

  lemma SerializedLayout(f: Frame, order: seq<string>, rest: string)
    requires Lists(order, f.headers)
    ensures Serialize(f, order) + rest ==
            f.command + "\n" + (HeaderText(f.headers, order) + (LengthLine(f) + ("\n" + (f.body + "\0" + rest))))
  {
  }

  /** One serialized frame in front of anything parses to itself, normalized. */
  lemma FrameRoundTrip(f: Frame, order: seq<string>, rest: string)
    requires Lists(order, f.headers) && Encodable(f) && |f.body| < SIZE_LIMIT
    ensures ParseFrame(Serialize(f, order) + rest) == Ok(Normalized(f), rest)
  {
    SerializedLayout(f, order, rest);
    CommandLine(f.command, HeaderText(f.headers, order) + (LengthLine(f) + ("\n" + (f.body + "\0" + rest))));
    SectionRoundTrip(f, order, f.body + "\0" + rest);
    BodyRoundTrip(f, rest);
  }

  /** A serialized frame is not taken for a heartbeat. */
  lemma NotAHeartbeat(f: Frame, order: seq<string>, rest: string)
    requires Lists(order, f.headers) && Encodable(f)
    ensures StripHeartbeats(Serialize(f, order) + rest) == Serialize(f, order) + rest
  {
    var s := Serialize(f, order) + rest;
    assert s[0] == f.command[0] && f.command[0] in f.command;
    if |f.command| > 1 { assert s[1] == f.command[1] && f.command[1] in f.command; }
  }

  datatype Outgoing = Outgoing(frame: Frame, order: seq<string>)

  ghost predicate Sendable(o: Outgoing) {
    Lists(o.order, o.frame.headers) && Encodable(o.frame) && |o.frame.body| < SIZE_LIMIT
  }

  ghost function Stream(frames: seq<Outgoing>): string
    requires forall o :: o in frames ==> Sendable(o)
  {
    if frames == [] then ""
    else
      assert Sendable(frames[0]);
      Serialize(frames[0].frame, frames[0].order) + Stream(frames[1..])
  }

  function Received(frames: seq<Outgoing>): seq<Frame> {
    if frames == [] then [] else [Normalized(frames[0].frame)] + Received(frames[1..])
  }

  lemma {:induction false} StreamRoundTrip(frames: seq<Outgoing>)
    requires forall o :: o in frames ==> Sendable(o)
    ensures Decode(Stream(frames)) == Decoded(Received(frames), "")
  {
    if frames != [] {
      var o := frames[0];
      assert o in frames;
      FrameRoundTrip(o.frame, o.order, Stream(frames[1..]));
      NotAHeartbeat(o.frame, o.order, Stream(frames[1..]));
      StreamRoundTrip(frames[1..]);
    }
  }

  /** Serialized frames cut into any pieces are decoded to exactly those frames, with nothing left over. */
  lemma RoundTripInPieces(frames: seq<Outgoing>, pieces: seq<string>)
    requires forall o :: o in frames ==> Sendable(o)
    requires Flatten(pieces) == Stream(frames)
    ensures FeedPieces("", pieces) == Decoded(Received(frames), "")
  {
    StreamRoundTrip(frames);
    ChunkingIrrelevant(pieces);
  }

  // ---------------------------------------------------------------- which frames survive the trip

  lemma {:induction false} UnescapeNonEmpty(s: string)
    requires s != [] && Unescape(s).Some?
    ensures Unescape(s).value != []
  {
    assert Unescape(s).value[0] == if s[0] != '\\' then s[0] else UnescapeCode(s[1]).value;
  }

  lemma {:induction false} ParsedNamesNonEmpty(s: string, headers: map<string, string>)
    requires "" !in headers && ParseHeaders(s, headers).Ok?
    ensures "" !in ParseHeaders(s, headers).value
    decreases |s|
  {
    var end := Find(s, '\n', 0);
    var line := StripCr(s[..end]);
    if line != [] {
      var h := ParseHeaderLine(line);
      UnescapeNonEmpty(line[..Find(line, ':', 0)]);
      ParsedNamesNonEmpty(s[end + 1..], headers[h.name := h.value]);
    }
  }

  lemma ParsedLength(s: string, headers: map<string, string>)
    requires ParseBody(s, headers).Ok? && CONTENT_LENGTH in headers
    ensures ParseSize(headers[CONTENT_LENGTH]) == Some(|ParseBody(s, headers).value|)
  {
  }

  lemma ParsedCommand(s: string)
    requires Find(s, '\n', 0) < |s|
    ensures var command := StripCr(s[..Find(s, '\n', 0)]);
            '\n' !in command && (command != [] ==> command[0] == s[0])
  {
    var command := StripCr(s[..Find(s, '\n', 0)]);
    forall i | 0 <= i < |command| ensures command[i] != '\n' { assert command[i] == s[i]; }
  }

  /** Every frame the decoder produces has a one-line command, named headers and a truthful length. */
  lemma DecodedFrameShape(s: string)
    requires ParseFrame(s).Ok?
    ensures var f := ParseFrame(s).value;
            && f.command != [] && '\n' !in f.command && f.command[0] == s[0]
            && "" !in f.headers
            && (CONTENT_LENGTH in f.headers ==> ParseSize(f.headers[CONTENT_LENGTH]) == Some(|f.body|))
  {
    ParsedCommand(s);
    var section := s[Find(s, '\n', 0) + 1..];
    ParsedNamesNonEmpty(section, map[]);
    var h := ParseHeaders(section, map[]);
    if CONTENT_LENGTH in h.value { ParsedLength(h.rest, h.value); }
  }

  lemma SectionStart(f: Frame, order: seq<string>, rest: string)
    requires Lists(order, f.headers)
    ensures (HeaderText(f.headers, order) + (LengthLine(f) + ("\n" + rest)))[0] != '\r'
  {
    if order != [] {
      HeaderLineShape(order[0], f.headers[order[0]]);
      var line := HeaderLineText(order[0], f.headers[order[0]]);
      assert line[0] == (Escape(order[0]) + ":")[0];
    }
  }

  /** A lone CR as command is read as a heartbeat, and the frame is lost. */
  lemma LoneCrCommand(f: Frame, order: seq<string>)
    requires Lists(order, f.headers) && f.command == "\r"
    ensures Decode(Serialize(f, order)) != Decoded([Normalized(f)], "")
  {
    var section := HeaderText(f.headers, order) + (LengthLine(f) + ("\n" + (f.body + "\0")));
    SectionStart(f, order, f.body + "\0");
    CrLfThen(section);
    if Decode(Serialize(f, order)) == Decoded([Normalized(f)], "") {
      FirstFrame(Serialize(f, order), Normalized(f));
      DecodedFrameShape(section);
    }
  }

  lemma CrLfThen(section: string)
    requires section != [] && section[0] != '\r'
    ensures StripHeartbeats("\r" + "\n" + section) == section
  {
    var s := "\r" + "\n" + section;
    assert s[0] == '\r' && s[1] == '\n' && s[2..] == section;
    assert StripLf(s) == s && StripCrLf(s) == StripCrLf(section) && !StartsWithCrLf(section);
  }

  /** A trailing CR of a longer command is taken for part of the line ending. */
  lemma TrailingCrCommand(f: Frame, order: seq<string>)
    requires Lists(order, f.headers)
    requires |f.command| > 1 && '\n' !in f.command && f.command[|f.command| - 1] == '\r'
    ensures Decode(Serialize(f, order)) != Decoded([Normalized(f)], "")
  {
    var section := HeaderText(f.headers, order) + (LengthLine(f) + ("\n" + (f.body + "\0")));
    LongCommand(f.command, section);
    if Decode(Serialize(f, order)) == Decoded([Normalized(f)], "") {
      FirstFrame(Serialize(f, order), Normalized(f));
    }
  }

  lemma LongCommand(command: string, section: string)
    requires |command| > 1 && '\n' !in command
    ensures var s := command + "\n" + section;
            StripHeartbeats(s) == s && (ParseFrame(s).Ok? ==> ParseFrame(s).value.command == StripCr(command))
  {
    var s := command + "\n" + section;
    assert s[0] == command[0] && command[0] in command;
    assert s[1] == command[1] && command[1] in command;
    CommandLine(command, section);
  }

  lemma FirstFrame(s: string, f: Frame)
    requires Decode(s) == Decoded([f], "")
    ensures ParseFrame(StripHeartbeats(s)).Ok? && ParseFrame(StripHeartbeats(s)).value == f
  {
    assert Decode(s).frames[0] == f;
  }

  /** Exactly the `Encodable` frames survive: a caller can tell before sending. */
  lemma RoundTripExact(f: Frame, order: seq<string>)
    requires Lists(order, f.headers) && |f.body| < SIZE_LIMIT
    ensures Decode(Serialize(f, order)) == Decoded([Normalized(f)], "") <==> Encodable(f)
  {
    if Encodable(f) {
      StreamOfOne(f, order);
    } else if Decode(Serialize(f, order)) == Decoded([Normalized(f)], "") {
      SurvivorShape(f, Serialize(f, order));
      if |f.command| == 1 { LoneCrCommand(f, order); } else { TrailingCrCommand(f, order); }
    }
  }

  lemma StreamOfOne(f: Frame, order: seq<string>)
    requires Lists(order, f.headers) && Encodable(f) && |f.body| < SIZE_LIMIT
    ensures Decode(Serialize(f, order)) == Decoded([Normalized(f)], "")
  {
    var out := [Outgoing(f, order)];
    StreamRoundTrip(out);
    assert out[1..] == [];
    assert Stream(out) == Serialize(f, order) + "" == Serialize(f, order);
    assert Received(out) == [Normalized(f)];
  }

  lemma SurvivorShape(f: Frame, s: string)
    requires Decode(s) == Decoded([Normalized(f)], "")
    ensures f.command != [] && '\n' !in f.command && "" !in f.headers
    ensures CONTENT_LENGTH in f.headers ==> ParseSize(f.headers[CONTENT_LENGTH]) == Some(|f.body|)
  {
    FirstFrame(s, Normalized(f));
    DecodedFrameShape(StripHeartbeats(s));
  }
}
