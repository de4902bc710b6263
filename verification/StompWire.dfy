/**
 The STOMP 1.2 wire format beyond what the server itself writes: lines that end in CRLF, repeated headers, sizes with
 leading zeros; and what the decoder refuses.
 */
module StompWire {
  import opened Common
  import opened Decimal
  import opened StompCodec

  // ---------------------------------------------------------------- escapes

  /** The four escapes of the header encoding; every other character stands for itself. */
  lemma {:induction false} EscapeEach(p: string, c: char, q: string)
    ensures Escape(p + ([c] + q)) ==
            Escape(p) + ((if c == '\\' then ['\\', '\\']
                          else if c == '\n' then ['\\', 'n']
                          else if c == '\r' then ['\\', 'r']
                          else if c == ':' then ['\\', 'c']
                          else [c]) + Escape(q))
    decreases |p|
  {
    if p == "" {
      assert p + ([c] + q) == [c] + q && ([c] + q)[1..] == q;
    } else {
      assert (p + ([c] + q))[1..] == p[1..] + ([c] + q);
      EscapeEach(p[1..], c, q);
    }
  }

  lemma UnescapeOne(c: char, s: string)
    ensures Unescape(EscapeChar(c) + s) == Attach([c], Unescape(s))
  {
    var head := EscapeChar(c);
    var e := head + s;
    assert e[|head|..] == s;
    assert |head| == 1 || (|head| == 2 && e[0] == '\\' && e[1] == head[1]);
  }

  lemma {:induction false} UnescapeAfter(p: string, s: string)
    ensures Unescape(Escape(p) + s) == Attach(p, Unescape(s))
    decreases |p|
  {
    hide Unescape, EscapeChar, Attach;
    if p == "" {
      assert Escape(p) + s == s;
      AttachAttach("", "", Unescape(s));
    } else {
      var tail := Escape(p[1..]) + s;
      assert Escape(p) + s == EscapeChar(p[0]) + tail;
      UnescapeOne(p[0], tail);
      UnescapeAfter(p[1..], s);
      AttachAttach([p[0]], p[1..], Unescape(s));
      assert [p[0]] + p[1..] == p;
    }
  }

  /** A backslash at the end, or before any other character than the four, is an error wherever it stands. */
  lemma BadEscape(p: string, s: string)
    requires s == "\\" || (|s| >= 2 && s[0] == '\\' && s[1] !in ['\\', 'n', 'r', 'c'])
    ensures Unescape(Escape(p) + s) == None
  {
    hide Escape;
    UnescapeAfter(p, s);
    assert '\\' in ['\\', 'n', 'r', 'c'] && 'n' in ['\\', 'n', 'r', 'c'];
    assert 'r' in ['\\', 'n', 'r', 'c'] && 'c' in ['\\', 'n', 'r', 'c'];
  }

  // ---------------------------------------------------------------- frames other clients may write

  /** A header line, ended by LF or by CRLF. */
  datatype Field = Field(name: string, value: string, cr: bool)

  function LineEnd(cr: bool): string { if cr then "\r\n" else "\n" }

  function FieldText(f: Field): string { Escape(f.name) + ":" + Escape(f.value) + LineEnd(f.cr) }

  function FieldsText(fields: seq<Field>): string {
    if fields == [] then "" else FieldText(fields[0]) + FieldsText(fields[1..])
  }

  /** Of headers with one name the last counts. */
  function Collected(headers: map<string, string>, fields: seq<Field>): map<string, string>
    decreases |fields|
  {
    if fields == [] then headers else Collected(headers[fields[0].name := fields[0].value], fields[1..])
  }

  lemma {:induction false} LastFieldCounts(headers: map<string, string>, fields: seq<Field>, i: nat)
    requires i < |fields| && forall j :: i < j < |fields| ==> fields[j].name != fields[i].name
    ensures var all := Collected(headers, fields);
            fields[i].name in all && all[fields[i].name] == fields[i].value
    decreases |fields|
  {
    if i > 0 {
      LastFieldCounts(headers[fields[0].name := fields[0].value], fields[1..], i - 1);
    } else {
      Untouched(headers[fields[0].name := fields[0].value], fields[1..], fields[0].name);
    }
  }

  lemma {:induction false} Untouched(headers: map<string, string>, fields: seq<Field>, name: string)
    requires forall j :: 0 <= j < |fields| ==> fields[j].name != name
    ensures name in Collected(headers, fields) <==> name in headers
    ensures name in headers ==> Collected(headers, fields)[name] == headers[name]
    decreases |fields|
  {
    if fields != [] { Untouched(headers[fields[0].name := fields[0].value], fields[1..], name); }
  }

  lemma LineIsRead(line: string, cr: bool, rest: string)
    requires '\n' !in line && (line != "" ==> line[|line| - 1] != '\r')
    ensures var s := line + LineEnd(cr) + rest;
            var end := Find(s, '\n', 0);
            end < |s| && StripCr(s[..end]) == line && s[end + 1..] == rest
  {
    var s := line + LineEnd(cr) + rest;
    var end := |line| + if cr then 1 else 0;
    forall i | 0 <= i < end ensures s[i] != '\n' {
      if i < |line| { assert s[i] == line[i] && line[i] in line; }
    }
    assert s[end] == '\n';
    FindUnique(s, '\n', 0, end);
    assert s[..end] == line + if cr then "\r" else "";
    assert s[end + 1..] == rest;
  }

  lemma HeaderIsRead(line: string, cr: bool, rest: string, headers: map<string, string>)
    requires line != "" && '\n' !in line && line[|line| - 1] != '\r'
    ensures ParseHeaders(line + LineEnd(cr) + rest, headers) ==
            match ParseHeaderLine(line)
            case BadLine => Malformed
            case Header(name, value) => ParseHeaders(rest, headers[name := value])
  {
    hide ParseHeaderLine, StripCr, LineEnd;
    LineIsRead(line, cr, rest);
  }

  lemma BlankIsRead(cr: bool, rest: string, headers: map<string, string>)
    ensures ParseHeaders(LineEnd(cr) + rest, headers) == Ok(headers, rest)
  {
    hide LineEnd;
    LineIsRead("", cr, rest);
    assert "" + LineEnd(cr) + rest == LineEnd(cr) + rest;
  }

  predicate Named(fields: seq<Field>) { forall i :: 0 <= i < |fields| ==> fields[i].name != "" }

  lemma {:induction false} FieldsAreRead(fields: seq<Field>, rest: string, headers: map<string, string>)
    requires Named(fields)
    ensures ParseHeaders(FieldsText(fields) + rest, headers) == ParseHeaders(rest, Collected(headers, fields))
    decreases |fields|
  {
    hide ParseHeaders, ParseHeaderLine, Escape, HeaderLineText, LineEnd;
    if fields == [] {
      assert "" + rest == rest;
    } else {
      var f, more := fields[0], FieldsText(fields[1..]) + rest;
      var line := HeaderLineText(f.name, f.value);
      assert line == Escape(f.name) + ":" + Escape(f.value) by { LineTextIs(f.name, f.value); }
      assert FieldsText(fields) + rest == line + LineEnd(f.cr) + more;
      HeaderLineShape(f.name, f.value);
      HeaderLineRoundTrip(f.name, f.value);
      HeaderIsRead(line, f.cr, more, headers);
      FieldsAreRead(fields[1..], rest, headers[f.name := f.value]);
    }
  }

  lemma LineTextIs(name: string, value: string)
    ensures HeaderLineText(name, value) == Escape(name) + ":" + Escape(value)
  {
  }

  predicate CommandText(command: string) {
    command != "" && '\n' !in command && command[|command| - 1] != '\r'
  }

  /** The length a frame declares, if any, is its body's; without one the body has no NUL. */
  ghost predicate Delimits(headers: map<string, string>, body: string) {
    if "content-length" in headers
    then |body| < SIZE_LIMIT && exists zeros: nat :: headers["content-length"] == Zeros(zeros) + ToText(|body|)
    else '\0' !in body
  }

  function HeadText(command: string, cr: bool, fields: seq<Field>): string {
    command + LineEnd(cr) + FieldsText(fields)
  }

  /** Behind command and headers the parser reads on with the headers collected. */
  lemma HeadIsRead(command: string, cr: bool, fields: seq<Field>, section: string)
    requires CommandText(command) && Named(fields)
    ensures ParseFrame(HeadText(command, cr, fields) + section) ==
            match ParseHeaders(section, Collected(map[], fields))
            case NeedMore => NeedMore
            case Malformed => Malformed
            case Ok(headers, rest) =>
              match ParseBody(rest, headers)
              case NeedMore => NeedMore
              case Malformed => Malformed
              case Ok(body, rest') => Ok(Frame(command, headers, body), rest')
  {
    hide ParseHeaders, ParseBody, StripCr, LineEnd, FieldsText;
    var after := FieldsText(fields) + section;
    assert HeadText(command, cr, fields) + section == command + LineEnd(cr) + after;
    LineIsRead(command, cr, after);
    FieldsAreRead(fields, section, map[]);
  }

  /** Frames with line ends of either kind and repeated headers are read as what they say, in front of anything. */
  lemma LooseFrame(command: string, cr: bool, fields: seq<Field>, blank: bool, body: string, rest: string)
    requires CommandText(command) && Named(fields) && Delimits(Collected(map[], fields), body)
    ensures ParseFrame(HeadText(command, cr, fields) + (LineEnd(blank) + (body + "\0" + rest))) ==
            Ok(Frame(command, Collected(map[], fields), body), rest)
  {
    hide ParseFrame, ParseHeaders, LineEnd, HeadText, Collected;
    var section := body + "\0" + rest;
    HeadIsRead(command, cr, fields, LineEnd(blank) + section);
    BlankIsRead(blank, section, Collected(map[], fields));
    LooseBody(Collected(map[], fields), body, rest);
  }

  lemma LooseBody(headers: map<string, string>, body: string, rest: string)
    requires Delimits(headers, body)
    ensures ParseBody(body + "\0" + rest, headers) == Ok(body, rest)
  {
    var s, n := body + "\0" + rest, |body|;
    assert s[..n] == body && s[n] == '\0' && s[n + 1..] == rest;
    if CONTENT_LENGTH in headers {
      ParsedExactly(headers[CONTENT_LENGTH], n);
    } else {
      forall i | 0 <= i < n ensures s[i] != '\0' { assert s[i] == body[i] && body[i] in body; }
      FindUnique(s, '\0', 0, n);
    }
  }

  // ---------------------------------------------------------------- what is refused

  /** A header line without a colon, with nothing before it, or with a bad escape on either side of it. */
  ghost predicate BadHeader(line: string) {
    || ':' !in line
    || (line != "" && line[0] == ':')
    || exists name, value :: BadParts(name, value) && line == name + ":" + value
  }

  predicate BadParts(name: string, value: string) {
    ':' !in name && (Unescape(name).None? || Unescape(value).None?)
  }

  lemma BadHeaderIs(line: string)
    requires BadHeader(line)
    ensures ParseHeaderLine(line) == BadLine
  {
    hide Unescape;
    if ':' in line && line[0] != ':' {
      var name, value :| BadParts(name, value) && line == name + ":" + value;
      forall i | 0 <= i < |name| ensures line[i] != ':' { assert line[i] == name[i] && name[i] in name; }
      assert line[|name|] == ':';
      FindUnique(line, ':', 0, |name|);
      assert line[..|name|] == name && line[|name| + 1..] == value;
    } else if ':' !in line {
      FindUnique(line, ':', 0, |line|);
    } else {
      FindUnique(line, ':', 0, 0);
    }
  }

  /** Such a line spoils the frame, whatever came before it and whatever follows. */
  lemma BadHeaderFails(command: string, cr: bool, fields: seq<Field>, line: string, end: bool, rest: string)
    requires CommandText(command) && Named(fields)
    requires line != "" && '\n' !in line && line[|line| - 1] != '\r' && BadHeader(line)
    ensures ParseFrame(HeadText(command, cr, fields) + (line + LineEnd(end) + rest)) == Malformed
  {
    hide ParseFrame, ParseHeaders, LineEnd, HeadText, Collected, BadHeader, ParseHeaderLine;
    HeadIsRead(command, cr, fields, line + LineEnd(end) + rest);
    BadHeaderIs(line);
    HeaderIsRead(line, end, rest, Collected(map[], fields));
  }

  /**
   The end of a frame that declares its length: refused when the length is no number below 2^64 or no NUL stands where
   the body ends, not decided before that byte is there.
   */
  lemma DeclaredLengthDecides(command: string, cr: bool, fields: seq<Field>, blank: bool, section: string)
    requires CommandText(command) && Named(fields) && "content-length" in Collected(map[], fields)
    ensures var headers := Collected(map[], fields);
            var size := ParseSize(headers["content-length"]);
            ParseFrame(HeadText(command, cr, fields) + (LineEnd(blank) + section)) ==
            if size.None? then Malformed
            else if |section| <= size.value then NeedMore
            else if section[size.value] != '\0' then Malformed
            else Ok(Frame(command, headers, section[..size.value]), section[size.value + 1..])
  {
    hide ParseFrame, ParseHeaders, LineEnd, HeadText, Collected, ParseSize;
    HeadIsRead(command, cr, fields, LineEnd(blank) + section);
    BlankIsRead(blank, section, Collected(map[], fields));
  }

  /** A frame spoilt at the front of the input fails the decoder; nothing of that input is delivered. */
  lemma SpoiltInput(s: string)
    requires ParseFrame(StripHeartbeats(s)).Malformed?
    ensures Decode(s) == Failed
  {
  }

  /** Line feeds, then carriage returns with line feeds, between frames are heartbeats and stand for nothing. */
  lemma {:induction false} HeartbeatsDropped(lfs: nat, crlfs: nat, s: string)
    requires s != "" ==> s[0] != '\n' && s[0] != '\r'
    ensures StripHeartbeats(seq(lfs, _ => '\n') + (Pairs(crlfs) + s)) == s
    decreases lfs, crlfs
  {
    if lfs > 0 {
      var whole := seq(lfs, _ => '\n') + (Pairs(crlfs) + s);
      assert whole[1..] == seq(lfs - 1, _ => '\n') + (Pairs(crlfs) + s);
      HeartbeatsDropped(lfs - 1, crlfs, s);
    } else {
      assert seq(0, _ => '\n') + (Pairs(crlfs) + s) == Pairs(crlfs) + s;
      PairsDropped(crlfs, s);
      if crlfs > 0 { assert (Pairs(crlfs) + s)[0] == '\r'; } else { assert Pairs(0) + s == s; }
    }
  }

  function Pairs(n: nat): string { if n == 0 then "" else "\r\n" + Pairs(n - 1) }

  lemma {:induction false} PairsDropped(n: nat, s: string)
    requires !StartsWithCrLf(s)
    ensures StripCrLf(Pairs(n) + s) == s
  {
    if n > 0 {
      assert (Pairs(n) + s)[2..] == Pairs(n - 1) + s;
      PairsDropped(n - 1, s);
    } else {
      assert Pairs(0) + s == s;
    }
  }
}
