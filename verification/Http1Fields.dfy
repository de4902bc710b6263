/**
 Header fields as they are written on the wire, by character codes: names in any mixture of cases, values between
 blanks, sizes in decimal and hexadecimal text. What the parser does with them is told without its own vocabulary.
 */
module Http1Fields {
  import opened Common
  import opened Http1Parser
  import opened Http1Messages
  import Decimal

  // ---------------------------------------------------------------- letters

  /** `c` is the character `k` or, where that is a small letter, its capital. */
  predicate SameLetter(c: char, k: char) { c == k || ('a' <= k <= 'z' && c as int == k as int - 32) }

  predicate SameLetters(s: string, key: string) {
    |s| == |key| && forall i :: 0 <= i < |s| ==> SameLetter(s[i], key[i])
  }

  predicate NoCapitals(key: string) { forall i :: 0 <= i < |key| ==> !('A' <= key[i] <= 'Z') }

  lemma LowerIs(s: string, key: string)
    requires NoCapitals(key)
    ensures Lower(s) == key <==> SameLetters(s, key)
  {
    if Lower(s) == key {
      forall i | 0 <= i < |s| ensures SameLetter(s[i], key[i]) { assert LowerChar(s[i]) == key[i]; }
    }
    if SameLetters(s, key) {
      forall i | 0 <= i < |s| ensures Lower(s)[i] == key[i] { assert SameLetter(s[i], key[i]); }
    }
  }

  lemma KeysAreSmall()
    ensures NoCapitals("content-length") && NoCapitals("transfer-encoding") && NoCapitals("connection")
    ensures NoCapitals("host") && NoCapitals("chunked") && NoCapitals("close") && NoCapitals("keep-alive")
  {
  }

  predicate Names(h: Header, key: string) { SameLetters(h.name, key) }

  predicate Says(h: Header, key: string, value: string) { SameLetters(h.name, key) && SameLetters(h.value, value) }

  lemma HeaderKeys(h: Header)
    ensures Lower(h.name) == "content-length" <==> Names(h, "content-length")
    ensures Lower(h.name) == "host" <==> Names(h, "host")
    ensures Announces(h, "transfer-encoding", "chunked") <==> Says(h, "transfer-encoding", "chunked")
    ensures Announces(h, "connection", "close") <==> Says(h, "connection", "close")
    ensures Announces(h, "connection", "keep-alive") <==> Says(h, "connection", "keep-alive")
  {
    hide Lower, SameLetters, NoCapitals;
    KeysAreSmall();
    LowerIs(h.name, "content-length");
    LowerIs(h.name, "host");
    LowerIs(h.name, "transfer-encoding");
    LowerIs(h.name, "connection");
    LowerIs(h.value, "chunked");
    LowerIs(h.value, "close");
    LowerIs(h.value, "keep-alive");
  }

  // ---------------------------------------------------------------- decimal sizes

  predicate Digits(s: string) { forall i :: 0 <= i < |s| ==> '0' <= s[i] <= '9' }

  /** The number a run of digits stands for, from the left. */
  function ValueFrom(s: string, base: nat, acc: nat): nat {
    if s == "" then acc else ValueFrom(s[1..], base, acc * base + DigitOf(s[0]))
  }

  predicate StopsAt(tail: string, base: nat) { tail == "" || DigitOf(tail[0]) >= base }

  lemma {:induction false} LeadingIs(digits: string, tail: string, base: nat, acc: Number)
    requires (forall i :: 0 <= i < |digits| ==> DigitOf(digits[i]) < base) && StopsAt(tail, base)
    ensures LeadingNumber(digits + tail, base, acc) ==
            Number(acc.digits + |digits|, ValueFrom(digits, base, acc.value))
    decreases |digits|
  {
    hide DigitOf;
    if digits == "" {
      assert digits + tail == tail;
    } else {
      assert (digits + tail)[1..] == digits[1..] + tail;
      LeadingIs(digits[1..], tail, base, Number(acc.digits + 1, acc.value * base + DigitOf(digits[0])));
    }
  }

  lemma {:induction false} ValueSnoc(s: string, c: char, base: nat, acc: nat)
    ensures ValueFrom(s + [c], base, acc) == ValueFrom(s, base, acc) * base + DigitOf(c)
    decreases |s|
  {
    if s == "" {
      assert "" + [c] == [c] && [c][1..] == "";
    } else {
      assert (s + [c])[1..] == s[1..] + [c];
      ValueSnoc(s[1..], c, base, acc * base + DigitOf(s[0]));
    }
  }

  lemma {:induction false} DecimalValue(s: string)
    requires Digits(s)
    ensures Decimal.AllDigits(s) && ValueFrom(s, 10, 0) == Decimal.Value(s)
    decreases |s|
  {
    if s != "" {
      var front, last := s[..|s| - 1], s[|s| - 1];
      DecimalValue(front);
      ValueSnoc(front, last, 10, 0);
      assert front + [last] == s;
    }
  }

  predicate Spaces(s: string) { forall i :: 0 <= i < |s| ==> s[i] == ' ' || 9 <= s[i] as int <= 13 }

  lemma {:induction false} SpacesSkipped(spaces: string, s: string, base: nat)
    requires Spaces(spaces)
    ensures Stoull(spaces + s, base) == Stoull(s, base)
    decreases |spaces|
  {
    if spaces == "" {
      assert spaces + s == s;
    } else {
      assert (spaces + s)[1..] == spaces[1..] + s;
      SpacesSkipped(spaces[1..], s, base);
    }
  }

  /** What cannot follow where digits might: the text would be read on. */
  predicate EndsNumber(sign: string, digits: string, tail: string) {
    tail != "" ==>
      && !('0' <= tail[0] <= '9')
      && (sign == "" && digits == "" ==> tail[0] !in "+- " && !(9 <= tail[0] as int <= 13))
  }

  lemma UnsignedDecimal(digits: string, tail: string)
    requires Digits(digits) && (tail != "" ==> !('0' <= tail[0] <= '9'))
    ensures Decimal.AllDigits(digits)
    ensures Unsigned(digits + tail, 10) ==
            if digits == "" || Decimal.Value(digits) >= SIZE_LIMIT then None else Some(Decimal.Value(digits))
  {
    hide LeadingNumber;
    DecimalValue(digits);
    forall i | 0 <= i < |digits| ensures DigitOf(digits[i]) < 10 { assert '0' <= digits[i] <= '9'; }
    LeadingIs(digits, tail, 10, Number(0, 0));
  }

  /**
   A length field, in full: white space, a sign, digits, anything. Every text is of this form. Nothing but the digits
   counts, there must be one, their value must be below 2^64, and a minus sign wraps it around.
   */
  lemma DecimalForms(spaces: string, sign: string, digits: string, tail: string)
    requires Spaces(spaces) && sign in ["", "+", "-"] && Digits(digits) && EndsNumber(sign, digits, tail)
    ensures Decimal.AllDigits(digits)
    ensures Stoull(spaces + (sign + (digits + tail)), 10) ==
            if digits == "" || Decimal.Value(digits) >= 0x1_0000_0000_0000_0000 then None
            else if sign == "-" then
              Some((0x1_0000_0000_0000_0000 - Decimal.Value(digits)) % 0x1_0000_0000_0000_0000)
            else Some(Decimal.Value(digits))
  {
    hide Unsigned, Decimal.Value;
    SpacesSkipped(spaces, sign + (digits + tail), 10);
    UnsignedDecimal(digits, tail);
    if sign == "" {
      assert sign + (digits + tail) == digits + tail;
      if digits != "" {
        assert '0' <= digits[0] <= '9';
      } else {
        assert digits + tail == tail;
        assert tail != "" ==> tail[0] != '+' && tail[0] != '-' && tail[0] != ' ';
        UnsignedNothing();
      }
    } else {
      assert (sign + (digits + tail))[1..] == digits + tail;
    }
  }

  lemma UnsignedNothing()
    ensures Unsigned("", 10) == None
  {
  }

  /** A number in plain decimal text. */
  lemma DecimalText(n: nat)
    requires n < SIZE_LIMIT
    ensures Stoull(Decimal.ToText(n), 10) == Some(n)
  {
    hide Stoull;
    var text := Decimal.ToText(n);
    Decimal.ValueOfText(n);
    forall i | 0 <= i < |text| ensures '0' <= text[i] <= '9' { assert text[i] in text; }
    DecimalForms("", "", text, "");
    assert "" + ("" + (text + "")) == text;
  }

  // ---------------------------------------------------------------- blanks around a field

  predicate Blanks(s: string) { forall i :: 0 <= i < |s| ==> s[i] == ' ' || s[i] == '\t' }

  predicate Unpadded(s: string) {
    s != "" ==> s[0] != ' ' && s[0] != '\t' && s[|s| - 1] != ' ' && s[|s| - 1] != '\t'
  }

  lemma {:induction false} LeftTrimmed(left: string, s: string)
    requires Blanks(left) && (s != "" ==> s[0] != ' ' && s[0] != '\t')
    ensures TrimLeft(left + s) == s
    decreases |left|
  {
    if left == "" {
      assert left + s == s;
    } else {
      assert (left + s)[1..] == left[1..] + s;
      LeftTrimmed(left[1..], s);
    }
  }

  lemma {:induction false} RightTrimmed(s: string, right: string)
    requires Blanks(right) && (s != "" ==> s[|s| - 1] != ' ' && s[|s| - 1] != '\t')
    ensures TrimRight(s + right) == s
    decreases |right|
  {
    if right == "" {
      assert s + right == s;
    } else {
      var n := |s + right|;
      assert (s + right)[..n - 1] == s + right[..|right| - 1];
      assert (s + right)[n - 1] == right[|right| - 1];
      RightTrimmed(s, right[..|right| - 1]);
    }
  }

  lemma TrimmedIs(left: string, s: string, right: string)
    requires Blanks(left) && Blanks(right) && Unpadded(s)
    ensures Trimmed(left + (s + right)) == s
  {
    hide TrimLeft, TrimRight;
    if s == "" {
      assert left + (s + right) == left + right;
      assert Blanks(left + right);
      LeftTrimmed(left + right, "");
      assert left + right + "" == left + (s + right);
      RightTrimmed("", "");
      assert "" + "" == "";
    } else {
      assert (s + right)[0] == s[0];
      LeftTrimmed(left, s + right);
      RightTrimmed(s, right);
    }
  }

  /** Blanks and tabs around name and value do not count, and the first colon divides them. */
  lemma BlanksDoNotCount(s: State, h: Header, a: string, b: string, c: string, d: string)
    requires ':' !in h.name && Unpadded(h.name) && Unpadded(h.value)
    requires Blanks(a) && Blanks(b) && Blanks(c) && Blanks(d)
    ensures var line := a + (h.name + b) + ":" + (c + (h.value + d));
            OnHeaderLine(s, line) ==
            var next := AddHeader(s, h.name, h.value);
            if next.None? then Fail(-3) else Go(next.value, |line| + 2)
  {
    hide AddHeader, Trimmed;
    var left, right := a + (h.name + b), c + (h.value + d);
    var line := left + ":" + right;
    forall i | 0 <= i < |left| ensures line[i] != ':' {
      assert line[i] == left[i];
      if |a| <= i < |a| + |h.name| { assert left[i] == h.name[i - |a|] && h.name[i - |a|] in h.name; }
    }
    assert line[|left|] == ':';
    FindUnique(line, ':', 0, |left|);
    assert line[..|left|] == left && line[|left| + 1..] == right;
    TrimmedIs(a, h.name, b);
    TrimmedIs(c, h.value, d);
  }

  // ---------------------------------------------------------------- what a list of headers says

  /** The last header of that name. */
  predicate Last(headers: seq<Header>, key: string, i: nat) {
    i < |headers| && Names(headers[i], key) && forall j :: i < j < |headers| ==> !Names(headers[j], key)
  }

  predicate Absent(headers: seq<Header>, key: string) { forall i :: 0 <= i < |headers| ==> !Names(headers[i], key) }

  lemma {:induction false} LastValueIs(headers: seq<Header>, key: string)
    requires NoCapitals(key)
    ensures Absent(headers, key) <==> LastValue(headers, key).None?
    ensures forall i: nat :: Last(headers, key, i) ==> LastValue(headers, key) == Some(headers[i].value)
    decreases |headers|
  {
    hide Lower, SameLetters;
    if headers != [] {
      var h, more := headers[0], headers[1..];
      LowerIs(h.name, key);
      LastValueIs(more, key);
      assert forall i :: 0 < i < |headers| ==> headers[i] == more[i - 1];
      assert forall i :: 0 <= i < |more| ==> more[i] == headers[i + 1];
      forall i: nat | Last(headers, key, i) ensures LastValue(headers, key) == Some(headers[i].value) {
        if i == 0 {
          assert Absent(more, key);
        } else {
          assert Last(more, key, i - 1);
        }
      }
    }
  }

  predicate AsksForChunks(headers: seq<Header>) {
    exists i :: 0 <= i < |headers| && Says(headers[i], "transfer-encoding", "chunked")
  }

  lemma {:induction false} SaysChunkedIs(headers: seq<Header>)
    ensures SaysChunked(headers) <==> AsksForChunks(headers)
    decreases |headers|
  {
    hide Announces, Says;
    if headers != [] {
      HeaderKeys(headers[0]);
      SaysChunkedIs(headers[1..]);
      assert forall i :: 0 < i < |headers| ==> headers[i] == headers[1..][i - 1];
    }
  }

  /** Every length is written as a plain decimal number below 2^64. */
  ghost predicate PlainLengths(headers: seq<Header>) {
    forall i :: 0 <= i < |headers| && Names(headers[i], "content-length") ==> PlainLength(headers[i].value)
  }

  ghost predicate PlainLength(text: string) { exists n: nat :: n < SIZE_LIMIT && text == Decimal.ToText(n) }

  lemma {:induction false} PlainLengthsParse(headers: seq<Header>)
    requires PlainLengths(headers)
    ensures LengthsParse(headers)
    decreases |headers|
  {
    hide Stoull, Names, Lower;
    if headers != [] {
      var h := headers[0];
      HeaderKeys(h);
      if Names(h, "content-length") {
        var n: nat :| n < SIZE_LIMIT && h.value == Decimal.ToText(n);
        DecimalText(n);
      }
      assert forall i :: 0 <= i < |headers| - 1 ==> headers[1..][i] == headers[i + 1];
      PlainLengthsParse(headers[1..]);
    }
  }

  predicate Speaks(h: Header) { Says(h, "connection", "close") || Says(h, "connection", "keep-alive") }

  /** What the last header about the connection asks for, and `before` when there is none. */
  ghost predicate Keeps(headers: seq<Header>, before: bool, alive: bool) {
    if forall i :: 0 <= i < |headers| ==> !Speaks(headers[i]) then alive == before
    else
      exists i ::
        && 0 <= i < |headers| && Speaks(headers[i]) && alive == Says(headers[i], "connection", "keep-alive")
        && forall j :: i < j < |headers| ==> !Speaks(headers[j])
  }

  lemma {:induction false} LastAliveIs(headers: seq<Header>, before: bool, alive: bool)
    requires Keeps(headers, before, alive)
    ensures Or(LastAlive(headers), before) == alive
    ensures LastAlive(headers).None? <==> forall i :: 0 <= i < |headers| ==> !Speaks(headers[i])
    decreases |headers|
  {
    hide Announces, Says;
    if headers != [] {
      var h, more := headers[0], headers[1..];
      HeaderKeys(h);
      NotBoth(h);
      assert forall i :: 0 < i < |headers| ==> headers[i] == more[i - 1];
      assert forall i :: 0 <= i < |more| ==> more[i] == headers[i + 1];
      if forall i :: 0 <= i < |more| ==> !Speaks(more[i]) {
        LastAliveIs(more, before, before);
      } else {
        var i :| 0 <= i < |headers| && Speaks(headers[i]) && alive == Says(headers[i], "connection", "keep-alive") &&
          forall j :: i < j < |headers| ==> !Speaks(headers[j]);
        assert i > 0 && more[i - 1] == headers[i];
        LastAliveIs(more, before, alive);
      }
    }
  }

  lemma NotBoth(h: Header)
    ensures !(Says(h, "connection", "close") && Says(h, "connection", "keep-alive"))
  {
    assert |"close"| == 5 && |"keep-alive"| == 10;
  }

  // ---------------------------------------------------------------- requests

  predicate FieldText(h: Header) {
    '\r' !in h.name && '\r' !in h.value && ':' !in h.name && Unpadded(h.name) && Unpadded(h.value)
  }

  ghost predicate LengthIs(headers: seq<Header>, n: nat) {
    || (Absent(headers, "content-length") && n == 0)
    || exists i: nat :: Last(headers, "content-length", i) && headers[i].value == Decimal.ToText(n)
  }

  ghost predicate AuthorityIs(headers: seq<Header>, authority: string) {
    || (Absent(headers, "host") && authority == "")
    || exists i: nat :: Last(headers, "host", i) && headers[i].value == authority
  }

  /** A request as a client writes it, with header names and the words of header values in any mixture of cases. */
  ghost predicate Written(m: Message) {
    && '\r' !in m.verb && ' ' !in m.verb && '\r' !in m.path
    && (forall i :: 0 <= i < |m.headers| ==> FieldText(m.headers[i]))
    && PlainLengths(m.headers)
    && match m.framing
       case Sized(body) => !AsksForChunks(m.headers) && LengthIs(m.headers, |body|)
       case Chunks(pieces, trailers) =>
         && AsksForChunks(m.headers)
         && (forall i :: 0 <= i < |trailers| ==> trailers[i] != "" && '\r' !in trailers[i])
         && forall i :: 0 <= i < |pieces| ==> 0 < |pieces[i]| < SIZE_LIMIT
  }

  lemma FieldIsPlain(h: Header)
    requires FieldText(h)
    ensures Plain(h)
  {
    hide Trimmed;
    TrimmedIs("", h.name, "");
    TrimmedIs("", h.value, "");
    assert "" + (h.name + "") == h.name && "" + (h.value + "") == h.value;
  }

  lemma LengthIsDeclared(headers: seq<Header>, n: nat)
    requires PlainLengths(headers) && LengthIs(headers, n)
    ensures DeclaredLength(headers, 0) == n
  {
    hide Stoull, LastValue, Names;
    KeysAreSmall();
    LastValueIs(headers, "content-length");
    if !Absent(headers, "content-length") {
      var i: nat :| Last(headers, "content-length", i) && headers[i].value == Decimal.ToText(n);
      var k: nat :| k < SIZE_LIMIT && headers[i].value == Decimal.ToText(k);
      Decimal.TextInjective(k, n);
      DecimalText(n);
    }
  }

  lemma WrittenIsSendable(m: Message)
    requires Written(m)
    ensures Sendable(m)
  {
    hide Plain, FieldText, LengthsParse, PlainLengths, SaysChunked, AsksForChunks, DeclaredLength, LengthIs;
    forall i | 0 <= i < |m.headers| ensures Plain(m.headers[i]) { FieldIsPlain(m.headers[i]); }
    PlainLengthsParse(m.headers);
    SaysChunkedIs(m.headers);
    if m.framing.Sized? { LengthIsDeclared(m.headers, |m.framing.body|); }
  }

  /**
   One request in front of anything reaches the application as it was written: its body is the declared number of
   bytes or the concatenated chunks, the authority is the last Host, and the last Connection choice decides whether
   the connection is kept. Names count by their letters, not by their case.
   */
  lemma RequestIsHandled(s: State, m: Message, authority: string, alive: bool, rest: string)
    requires Ready(s) && Written(m) && AuthorityIs(m.headers, authority) && Keeps(m.headers, s.keepAlive, alive)
    ensures var request := Request(m.verb, m.path, authority, m.headers, BodyOf(m.framing));
            Run(s, MessageText(m) + rest) ==
            Run(s.(keepAlive := alive, handled := s.handled + [Handled(request, alive)]), rest)
  {
    hide Run, Written, Sendable, MessageText, LastValue, LastAlive, Keeps;
    WrittenIsSendable(m);
    MessageRoundTrip(s, m, rest);
    LastAliveIs(m.headers, s.keepAlive, alive);
    KeysAreSmall();
    LastValueIs(m.headers, "host");
  }

  /** The plainest case spelled out: one header, named Content-Length in any mixture of cases, and its body. */
  lemma LengthInAnyCase(s: State, verb: string, path: string, name: string, body: string, rest: string)
    requires Ready(s) && '\r' !in verb && ' ' !in verb && '\r' !in path
    requires SameLetters(name, "content-length") && |body| < SIZE_LIMIT
    ensures var headers := [Header(name, Decimal.ToText(|body|))];
            var handled := Handled(Request(verb, path, "", headers, body), s.keepAlive);
            var text := verb + " " + path + " HTTP/1.1\r\n" + name + ": " + Decimal.ToText(|body|) + "\r\n\r\n" + body;
            Run(s, text + rest) == Run(s.(handled := s.handled + [handled]), rest)
  {
    hide Run, Decimal.ToText;
    var h := Header(name, Decimal.ToText(|body|));
    var m := Message(verb, path, [h], Sized(body));
    OnlyLength(h, |body|);
    assert Last([h], "content-length", 0);
    assert Written(m);
    RequestIsHandled(s, m, "", s.keepAlive, rest);
    assert HeadersText([h][1..]) == "\r\n";
    assert MessageText(m) + rest ==
      verb + " " + path + " HTTP/1.1\r\n" + name + ": " + h.value + "\r\n\r\n" + body + rest;
  }

  lemma OnlyLength(h: Header, n: nat)
    requires SameLetters(h.name, "content-length") && h.value == Decimal.ToText(n) && n < SIZE_LIMIT
    ensures FieldText(h) && !AsksForChunks([h]) && Absent([h], "host") && !Speaks(h) && PlainLength(h.value)
  {
    hide Decimal.ToText;
    assert |"content-length"| == 14 && |"host"| == 4 && |"transfer-encoding"| == 17 && |"connection"| == 10;
    forall i | 0 <= i < |h.name| ensures h.name[i] !in "\r: \t" {
      assert SameLetter(h.name[i], "content-length"[i]);
    }
    assert h.value[0] in h.value && h.value[|h.value| - 1] in h.value;
    assert '\r' in "\r: \t" && ':' in "\r: \t" && ' ' in "\r: \t" && '\t' in "\r: \t";
  }

  // ---------------------------------------------------------------- chunk sizes

  predicate Zeros(s: string) { forall i :: 0 <= i < |s| ==> s[i] == '0' }

  predicate AllHex(s: string) { forall i :: 0 <= i < |s| ==> DigitOf(s[i]) < 16 }

  lemma {:induction false} SameValue(text: string, hex: string, acc: nat)
    requires SameLetters(text, hex) && AllHex(hex)
    ensures AllHex(text) && ValueFrom(text, 16, acc) == ValueFrom(hex, 16, acc)
    decreases |text|
  {
    if text != "" {
      assert SameLetter(text[0], hex[0]);
      assert DigitOf(text[0]) == DigitOf(hex[0]) < 16;
      SameValue(text[1..], hex[1..], acc * 16 + DigitOf(hex[0]));
      assert forall i :: 0 < i < |text| ==> text[i] == text[1..][i - 1];
    }
  }

  lemma {:induction false} ZerosSkipped(zeros: string, text: string)
    requires Zeros(zeros)
    ensures ValueFrom(zeros + text, 16, 0) == ValueFrom(text, 16, 0)
    decreases |zeros|
  {
    if zeros == "" {
      assert zeros + text == text;
    } else {
      assert (zeros + text)[1..] == zeros[1..] + text;
      ZerosSkipped(zeros[1..], text);
    }
  }

  lemma HexIsHex(n: nat)
    ensures AllHex(Hex(n)) && ValueFrom(Hex(n), 16, 0) == n
  {
    hide Hex, HexDigit, LeadingNumber, DigitOf;
    HexValue(n);
    forall i | 0 <= i < |Hex(n)| ensures DigitOf(Hex(n)[i]) < 16 {
      var d: nat :| d < 16 && Hex(n)[i] == HexDigit(d);
      HexDigitValue(d);
    }
    LeadingIs(Hex(n), "", 16, Number(0, 0));
    assert Hex(n) + "" == Hex(n);
  }

  lemma HexCharacters(s: string)
    requires AllHex(s)
    ensures forall i :: 0 <= i < |s| ==> s[i] !in ";+-xX\r" && !IsSpace(s[i])
  {
    forall i | 0 <= i < |s| ensures s[i] !in ";+-xX\r" && !IsSpace(s[i]) { assert DigitOf(s[i]) < 16; }
  }

  lemma HexNumber(s: string)
    requires AllHex(s) && s != "" && ValueFrom(s, 16, 0) < SIZE_LIMIT
    ensures Stoull(s, 16) == Some(ValueFrom(s, 16, 0))
  {
    hide LeadingNumber, ValueFrom, DigitOf;
    HexCharacters(s);
    assert '+' in ";+-xX\r" && '-' in ";+-xX\r" && 'x' in ";+-xX\r" && 'X' in ";+-xX\r";
    LeadingIs(s, "", 16, Number(0, 0));
    assert s + "" == s;
  }

  /** A chunk size in hexadecimal digits of either case, with leading zeros and an extension behind a semicolon. */
  lemma SizeForms(zeros: string, text: string, extension: string, n: nat)
    requires Zeros(zeros) && SameLetters(text, Hex(n)) && n < SIZE_LIMIT && (extension != "" ==> extension[0] == ';')
    ensures Stoull(SizeText(zeros + text + extension), 16) == Some(n)
  {
    hide Hex, Stoull, ValueFrom;
    var digits := zeros + text;
    HexIsHex(n);
    SameValue(text, Hex(n), 0);
    ZerosSkipped(zeros, text);
    assert AllHex(digits);
    HexCharacters(digits);
    assert ';' in ";+-xX\r";
    var line := digits + extension;
    assert forall i :: 0 <= i < |digits| ==> line[i] == digits[i];
    FindUnique(line, ';', 0, |digits|);
    assert line[..|digits|] == digits;
    HexNumber(digits);
  }

  /** A chunk with its size in any of these forms is appended to the body; cut short or badly ended it is not. */
  lemma ChunkInAnyForm(
    s: State, zeros: string, text: string, extension: string, piece: string, after: string)
    requires s.phase.Body? && s.chunked && 0 < |piece| < SIZE_LIMIT && '\r' !in extension
    requires Zeros(zeros) && SameLetters(text, Hex(|piece|)) && (extension != "" ==> extension[0] == ';')
    ensures var line := zeros + text + extension;
            var input := line + "\r\n" + (piece + after);
            Advance(s, input) ==
            if |after| < 2 then NeedMore
            else if after[0] == '\r' && after[1] == '\n' then Go(AppendBody(s, piece), |line| + |piece| + 4)
            else Fail(-5)
  {
    hide Advance, Hex, Stoull, SizeText, SameLetters, Zeros, AppendBody;
    SizeForms(zeros, text, extension, |piece|);
    FormIsOneLine(zeros, text, extension, |piece|);
    SizedChunk(s, zeros + text + extension, piece, after);
  }

  lemma SizedChunk(s: State, line: string, piece: string, after: string)
    requires s.phase.Body? && s.chunked && piece != "" && OneLine(line)
    requires Stoull(SizeText(line), 16) == Some(|piece|)
    ensures Advance(s, line + "\r\n" + (piece + after)) ==
            if |after| < 2 then NeedMore
            else if after[0] == '\r' && after[1] == '\n' then Go(AppendBody(s, piece), |line| + |piece| + 4)
            else Fail(-5)
  {
    hide Stoull, SizeText, AppendBody, SkipTrailers, OneLine;
    var input := line + "\r\n" + (piece + after);
    ReadLine(line, piece + after);
    var start := |line| + 2;
    assert input[start..] == piece + after;
    assert input[start..start + |piece|] == (piece + after)[..|piece|] == piece;
    assert |after| >= 2 ==> input[start + |piece|] == after[0] && input[start + |piece| + 1] == after[1];
  }

  lemma FormIsOneLine(zeros: string, text: string, extension: string, n: nat)
    requires Zeros(zeros) && SameLetters(text, Hex(n)) && '\r' !in extension
    ensures OneLine(zeros + text + extension)
  {
    hide Hex, ValueFrom;
    HexIsHex(n);
    SameValue(text, Hex(n), 0);
    HexCharacters(text);
    assert '\r' in ";+-xX\r";
  }

  /** Size zero in any of these forms ends the body; the trailer lines behind it are dropped. */
  lemma LastChunkInAnyForm(
    s: State, zeros: string, extension: string, trailers: seq<string>, rest: string)
    requires s.phase.Body? && s.chunked && Zeros(zeros) && zeros != ""
    requires '\r' !in extension && (extension != "" ==> extension[0] == ';')
    requires forall i :: 0 <= i < |trailers| ==> trailers[i] != "" && '\r' !in trailers[i]
    ensures Run(s, EndText(zeros + extension, trailers) + rest) == Run(Finish(s), rest)
  {
    hide Run, Advance, Stoull, SizeText, EndText;
    var front, last := zeros[..|zeros| - 1], zeros[|zeros| - 1..];
    assert Hex(0) == "0" && last == "0";
    assert front + last + extension == zeros + extension;
    SizeForms(front, last, extension, 0);
    FormIsOneLine(front, last, extension, 0);
    ZeroLineStep(s, zeros + extension, trailers, rest);
    GoLeads(s, EndText(zeros + extension, trailers), rest, Finish(s));
  }

  /** A size line that begins with neither white space nor a sign nor a hexadecimal digit. */
  lemma NoSizeFails(s: State, line: string, rest: string)
    requires s.phase.Body? && s.chunked && '\r' !in line
    requires line == "" || (line[0] !in " +-" && !(9 <= line[0] as int <= 13) && DigitOf(line[0]) >= 16)
    ensures Run(s, line + "\r\n" + rest).state.phase == Failed(-4)
  {
    ReadLine(line, rest);
    var size := SizeText(line);
    assert size != "" ==> size[0] == line[0];
    assert ' ' in " +-" && '+' in " +-" && '-' in " +-";
    assert Stoull(size, 16) == None;
  }

  // ---------------------------------------------------------------- lines that are refused

  /** A request line is taken apart at its first and last space; it needs two of them. */
  lemma RequestLineExactly(s: State, verb: string, path: string, version: string)
    requires ' ' !in verb && ' ' !in version
    ensures var line := verb + " " + path + " " + version;
            OnRequestLine(s, line) ==
            Go(s.(phase := Headers, request := s.request.(verb := verb, path := path)), |line| + 2)
  {
    var line := verb + " " + path + " " + version;
    var first, last := |verb|, |verb| + 1 + |path|;
    forall i | 0 <= i < first ensures line[i] != ' ' { assert line[i] == verb[i] && verb[i] in verb; }
    FindUnique(line, ' ', 0, first);
    forall i | last < i < |line| ensures line[i] != ' ' {
      assert line[i] == version[i - last - 1] && version[i - last - 1] in version;
    }
    assert line[last] == ' ' && FindLast(line, ' ', |line|) == last;
    assert line[..first] == verb && line[first + 1..last] == path;
  }

  lemma RequestLineFails(s: State, line: string)
    ensures line == "" ==> OnRequestLine(s, line) == Go(s, 2)
    ensures OnRequestLine(s, line).Fail? <==>
            line != "" && forall i, j :: 0 <= i < j < |line| ==> line[i] != ' ' || line[j] != ' '
    ensures OnRequestLine(s, line).Fail? ==> OnRequestLine(s, line) == Fail(-1)
  {
  }

  lemma HeaderLineFails(s: State, line: string)
    ensures OnHeaderLine(s, line) == Fail(-2) <==> line != "" && ':' !in line
    ensures OnHeaderLine(s, line).Fail? && ':' in line ==> OnHeaderLine(s, line) == Fail(-3)
  {
    hide AddHeader, Trimmed;
    var colon := Find(line, ':', 0);
    if ':' in line { var i :| 0 <= i < |line| && line[i] == ':'; }
  }

  /** Exactly a length that is no number is refused; every other field is recorded as it is. */
  lemma FieldFails(s: State, h: Header)
    ensures AddHeader(s, h.name, h.value).None? <==> Names(h, "content-length") && Stoull(h.value, 10).None?
    ensures AddHeader(s, h.name, h.value).Some? ==>
              AddHeader(s, h.name, h.value).value.request.headers == s.request.headers + [h]
  {
    hide Stoull, Lower, Names;
    HeaderKeys(h);
  }

  /** A failure ends the connection with its code. */
  lemma FailureIsFinal(s: State, input: string)
    ensures Advance(s, input).Fail? ==> Run(s, input).state == s.(phase := Failed(Advance(s, input).code))
  {
    hide Advance;
  }
}
