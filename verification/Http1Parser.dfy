/**
 The resumable HTTP/1.1 request parser (section 6 of RFC 9112), without upgrades and event streams.
 Bytes are characters. What the application answers is a parameter: any function of the requests so far.
 */
module Http1Parser {
  import opened Common

  // ---------------------------------------------------------------- text

  predicate CrLfAt(s: string, i: nat) { i + 1 < |s| && s[i] == '\r' && s[i + 1] == '\n' }

  /** The position of the first CRLF at or after `from`, and `|s|` when there is none. */
  function FindCrLf(s: string, from: nat): (r: nat)
    requires from <= |s|
    ensures from <= r <= |s| && (r < |s| ==> CrLfAt(s, r))
    ensures forall i :: from <= i < r ==> !CrLfAt(s, i)
    decreases |s| - from
  {
    if from == |s| || CrLfAt(s, from) then from else FindCrLf(s, from + 1)
  }

  predicate IsBlank(c: char) { c == ' ' || c == '\t' }

  function TrimLeft(s: string): string { if s != "" && IsBlank(s[0]) then TrimLeft(s[1..]) else s }

  function TrimRight(s: string): string { if s != "" && IsBlank(s[|s| - 1]) then TrimRight(s[..|s| - 1]) else s }

  function Trimmed(s: string): string { TrimRight(TrimLeft(s)) }

  function LowerChar(c: char): char { if 'A' <= c <= 'Z' then (c as int + 32) as char else c }

  function Lower(s: string): string { seq(|s|, i requires 0 <= i < |s| => LowerChar(s[i])) }

  /** The position of the last `c`, and `|s|` when there is none. */
  function FindLast(s: string, c: char, n: nat): (r: nat)
    requires n <= |s|
    ensures (r < n && s[r] == c && forall i :: r < i < n ==> s[i] != c)
            || (r == |s| && forall i :: 0 <= i < n ==> s[i] != c)
  {
    if n == 0 then |s| else if s[n - 1] == c then n - 1 else FindLast(s, c, n - 1)
  }

  predicate IsSpace(c: char) { c == ' ' || 9 <= c as int <= 13 }

  function DigitOf(c: char): nat {
    if '0' <= c <= '9' then c as int - '0' as int
    else if 'a' <= c <= 'z' then c as int - 'a' as int + 10
    else if 'A' <= c <= 'Z' then c as int - 'A' as int + 10
    else 99
  }

  datatype Number = Number(digits: nat, value: nat)

  /** The leading digits of `s` in the given base. */
  function LeadingNumber(s: string, base: nat, acc: Number): Number {
    if s == "" || DigitOf(s[0]) >= base then acc
    else LeadingNumber(s[1..], base, Number(acc.digits + 1, acc.value * base + DigitOf(s[0])))
  }

  function Unsigned(s: string, base: nat): Option<nat> {
    var prefixed := base == 16 && |s| > 2 && s[0] == '0' && (s[1] == 'x' || s[1] == 'X') && DigitOf(s[2]) < 16;
    var hexed := if prefixed then s[2..] else s;
    var n := LeadingNumber(hexed, base, Number(0, 0));
    if n.digits == 0 || n.value >= SIZE_LIMIT then None else Some(n.value)
  }

  /** `std::stoull`: blanks and a sign may lead, anything may follow; `None` is either of its exceptions. */
  function Stoull(s: string, base: nat): Option<nat> {
    if s == "" then None
    else if IsSpace(s[0]) then Stoull(s[1..], base)
    else if s[0] == '+' then Unsigned(s[1..], base)
    else if s[0] == '-' then
      var n := Unsigned(s[1..], base);
      if n.None? then None else Some((SIZE_LIMIT - n.value) % SIZE_LIMIT)
    else Unsigned(s, base)
  }

  // ---------------------------------------------------------------- parser state

  datatype Header = Header(name: string, value: string)

  datatype Request = Request(verb: string, path: string, authority: string, headers: seq<Header>, body: string)

  const NO_REQUEST := Request("", "", "", [], "")

  datatype Phase = RequestLine | Headers | Body | Failed(code: int)

  /** A call of the application, with the keep-alive flag its response carries. */
  datatype Handled = Handled(request: Request, keepAlive: bool)

  datatype State = State(
    phase: Phase, request: Request, contentLength: nat, chunked: bool, keepAlive: bool, handled: seq<Handled>)

  const INITIAL := State(RequestLine, NO_REQUEST, 0, false, true, [])

  /** The request is handed to the application, and the parser starts over. */
  function Finish(s: State): State {
    State(RequestLine, NO_REQUEST, 0, false, s.keepAlive, s.handled + [Handled(s.request, s.keepAlive)])
  }

  datatype Step = NeedMore | Fail(code: int) | Go(state: State, used: nat) | Halt(state: State, used: nat)

  function OnRequestLine(s: State, line: string): (r: Step)
    ensures r.Fail? || (r.Go? && r.used == |line| + 2)
  {
    var first, last := Find(line, ' ', 0), FindLast(line, ' ', |line|);
    if line == "" then Go(s, 2)
    else if first == |line| || last == |line| || first == last then Fail(-1)
    else
      var request := s.request.(verb := line[..first], path := line[first + 1..last]);
      Go(s.(phase := Headers, request := request), |line| + 2)
  }

  function AddHeader(s: State, name: string, value: string): Option<State> {
    var next := s.(request := s.request.(headers := s.request.headers + [Header(name, value)]));
    var key, low := Lower(name), Lower(value);
    if key == "content-length" then
      var n := Stoull(value, 10);
      if n.None? then None else Some(next.(contentLength := n.value))
    else if key == "transfer-encoding" then Some(if low == "chunked" then next.(chunked := true) else next)
    else if key == "connection" then
      Some(if low == "close" then next.(keepAlive := false)
           else if low == "keep-alive" then next.(keepAlive := true)
           else next)
    else if key == "host" then Some(next.(request := next.request.(authority := value)))
    else Some(next)
  }

  function OnHeaderLine(s: State, line: string): (r: Step)
    ensures r.Fail? || (r.Go? && r.used == |line| + 2)
  {
    if line == "" then
      Go(if s.contentLength > 0 || s.chunked then s.(phase := Body) else Finish(s), 2)
    else
      var colon := Find(line, ':', 0);
      if colon == |line| then Fail(-2)
      else
        var next := AddHeader(s, Trimmed(line[..colon]), Trimmed(line[colon + 1..]));
        if next.None? then Fail(-3) else Go(next.value, |line| + 2)
  }

  function AppendBody(s: State, data: string): State { s.(request := s.request.(body := s.request.body + data)) }

  /** Where the trailer section ends; `complete` when its blank line is there. */
  datatype Trailers = Trailers(end: nat, complete: bool)

  function SkipTrailers(input: string, from: nat): (r: Trailers)
    requires from <= |input|
    ensures from <= r.end <= |input|
    decreases |input| - from
  {
    var line := FindCrLf(input, from);
    if line == |input| then Trailers(from, false)
    else if line == from then Trailers(from + 2, true)
    else SkipTrailers(input, line + 2)
  }

  function SizeText(line: string): string { line[..Find(line, ';', 0)] }

  function OnChunk(s: State, input: string): (r: Step)
    ensures (r.Go? || r.Halt?) ==> 0 < r.used <= |input|
  {
    var line := FindCrLf(input, 0);
    if line == |input| then NeedMore
    else
      var size := Stoull(SizeText(input[..line]), 16);
      var start := line + 2;
      if size.None? then Fail(-4)
      else if size.value == 0 then
        var trailers := SkipTrailers(input, start);
        if trailers.complete then Go(Finish(s), trailers.end) else Halt(s, trailers.end)
      else if |input| < start + size.value + 2 then NeedMore
      else if !CrLfAt(input, start + size.value) then Fail(-5)
      else Go(AppendBody(s, input[start..start + size.value]), start + size.value + 2)
  }

  /** What the parser does next with the unread input; every step that goes on consumes some. */
  function Advance(s: State, input: string): (r: Step)
    ensures (r.Go? || r.Halt?) ==> 0 < r.used <= |input|
  {
    match s.phase
    case Failed(_) => NeedMore
    case Body =>
      if s.chunked then OnChunk(s, input)
      else if s.contentLength == 0 || |input| < s.contentLength then NeedMore
      else Go(Finish(AppendBody(s, input[..s.contentLength])), s.contentLength)
    case RequestLine =>
      var line := FindCrLf(input, 0);
      if line == |input| then NeedMore else OnRequestLine(s, input[..line])
    case Headers =>
      var line := FindCrLf(input, 0);
      if line == |input| then NeedMore else OnHeaderLine(s, input[..line])
  }

  /** `halted` says that the input ran out inside the trailer section of a chunked body. */
  datatype Outcome = Outcome(state: State, rest: string, halted: bool)

  function Run(s: State, input: string): (r: Outcome)
    decreases |input|
  {
    match Advance(s, input)
    case NeedMore => Outcome(s, input, false)
    case Fail(code) => Outcome(s.(phase := Failed(code)), input, false)
    case Halt(next, used) => Outcome(next, input[used..], true)
    case Go(next, used) => Run(next, input[used..])
  }

  // ---------------------------------------------------------------- the session object

  method GetLine(buffer: string, offset: nat) returns (line: Option<string>, next: nat)
    requires offset <= |buffer|
    ensures var end := FindCrLf(buffer[offset..], 0);
            if end == |buffer| - offset then line == None && next == offset
            else line == Some(buffer[offset..][..end]) && next == offset + end + 2 <= |buffer|
  {
    var i := offset;
    ghost var window := buffer[offset..];
    while i + 1 < |buffer|
      invariant offset <= i <= |buffer|
      invariant FindCrLf(window, 0) == FindCrLf(window, i - offset)
    {
      assert window[i - offset] == buffer[i] && window[i + 1 - offset] == buffer[i + 1];
      if buffer[i] == '\r' && buffer[i + 1] == '\n' {
        assert buffer[offset..i] == window[..i - offset];
        return Some(buffer[offset..i]), i + 2;
      }
      i := i + 1;
    }
    if i < |buffer| { assert FindCrLf(window, i - offset) == FindCrLf(window, |window|); }
    return None, offset;
  }

  method ReadTrailers(input: string, from: nat) returns (trailers: Trailers)
    requires from <= |input|
    ensures trailers == SkipTrailers(input, from)
  {
    var offset := from;
    while true
      invariant from <= offset <= |input|
      invariant SkipTrailers(input, from) == SkipTrailers(input, offset)
      decreases |input| - offset
    {
      FindCrLfShift(input, offset);
      var line, next := GetLine(input, offset);
      if line.None? { return Trailers(offset, false); }
      offset := next;
      if line.value == "" { return Trailers(offset, true); }
    }
  }

  lemma {:induction false} FindCrLfUnique(s: string, from: nat, r: nat)
    requires from <= r <= |s| && (r < |s| ==> CrLfAt(s, r))
    requires forall i :: from <= i < r ==> !CrLfAt(s, i)
    ensures FindCrLf(s, from) == r
    decreases r - from
  {
    if from < r { FindCrLfUnique(s, from + 1, r); }
  }

  lemma FindCrLfShift(s: string, from: nat)
    requires from <= |s|
    ensures FindCrLf(s, from) == from + FindCrLf(s[from..], 0)
  {
    var tail := s[from..];
    var r := FindCrLf(tail, 0);
    forall i | from <= i < from + r ensures !CrLfAt(s, i) {
      assert !CrLfAt(tail, i - from);
    }
    FindCrLfUnique(s, from, from + r);
  }

  class Http1Session {
    var buffer: string
    var parseOffset: nat
    var view: State

    ghost predicate Valid()
      reads this
    {
      parseOffset == 0
    }

    constructor ()
      ensures Valid() && buffer == "" && view == INITIAL
    {
      buffer, parseOffset, view := "", 0, INITIAL;
    }

    /**
     `code` is 0 on success. After an error the connection is closed by its owner; another call would find
     no state to act on and spin, so it is excluded here.
     */
    method FeedData(data: string) returns (code: int)
      requires Valid() && !view.phase.Failed?
      modifies this
      ensures var r := Run(old(view), old(buffer) + data);
              && view == r.state
              && code == (if view.phase.Failed? then view.phase.code else 0)
              && (!view.phase.Failed? ==> Valid() && buffer == r.rest)
    {
      hide Advance;
      buffer := buffer + data;
      ghost var expected := Run(view, buffer);
      assert buffer[0..] == buffer;
      while parseOffset < |buffer|
        invariant 0 <= parseOffset <= |buffer| && !view.phase.Failed?
        invariant expected == Run(view, buffer[parseOffset..])
        decreases |buffer| - parseOffset
      {
        ghost var window := buffer[parseOffset..];
        var step := NextStep();
        if step.NeedMore? { break; }
        if step.Fail? {
          view := view.(phase := Failed(step.code));
          return step.code;
        }
        assert buffer[parseOffset + step.used..] == window[step.used..];
        parseOffset := parseOffset + step.used;
        view := step.state;
        if step.Halt? {
          EraseConsumed();
          return 0;
        }
      }
      NothingToDo(view, buffer[parseOffset..]);
      EraseConsumed();
      return 0;
    }

    method EraseConsumed()
      requires parseOffset <= |buffer|
      modifies this`buffer, this`parseOffset
      ensures buffer == old(buffer[parseOffset..]) && parseOffset == 0
    {
      buffer := buffer[parseOffset..];
      parseOffset := 0;
    }

    /** The part of one pass that depends on the current state. */
    method NextStep() returns (step: Step)
      requires parseOffset < |buffer| && !view.phase.Failed?
      ensures step == Advance(view, buffer[parseOffset..])
      ensures !(step.Go? && step.state.phase.Failed?) && !(step.Halt? && step.state.phase.Failed?)
    {
      hide OnRequestLine, OnHeaderLine, OnChunk;
      StepsStayOpen(view, buffer[parseOffset..]);
      if view.phase.Body? {
        if view.chunked {
          step := ReadChunk(buffer[parseOffset..]);
        } else {
          var available := |buffer| - parseOffset;
          if view.contentLength == 0 || available < view.contentLength { return NeedMore; }
          var body := buffer[parseOffset..parseOffset + view.contentLength];
          assert body == buffer[parseOffset..][..view.contentLength];
          step := Go(Finish(AppendBody(view, body)), view.contentLength);
        }
      } else {
        var line, next := GetLine(buffer, parseOffset);
        if line.None? { return NeedMore; }
        step := if view.phase.RequestLine? then OnRequestLine(view, line.value) else OnHeaderLine(view, line.value);
      }
    }

    method ReadChunk(input: string) returns (step: Step)
      requires !view.phase.Failed?
      ensures step == OnChunk(view, input)
    {
      assert input[0..] == input;
      var line, start := GetLine(input, 0);
      if line.None? { return NeedMore; }
      var size := Stoull(SizeText(line.value), 16);
      if size.None? { return Fail(-4); }
      if size.value == 0 {
        var trailers := ReadTrailers(input, start);
        return if trailers.complete then Go(Finish(view), trailers.end) else Halt(view, trailers.end);
      }
      if |input| < start + size.value + 2 { return NeedMore; }
      if !CrLfAt(input, start + size.value) { return Fail(-5); }
      step := Go(AppendBody(view, input[start..start + size.value]), start + size.value + 2);
    }
  }

  lemma StepsStayOpen(s: State, input: string)
    requires !s.phase.Failed?
    ensures var r := Advance(s, input); (r.Go? || r.Halt?) ==> !r.state.phase.Failed?
  {
    hide Stoull, Lower, Trimmed;
  }

  lemma NothingToDo(s: State, input: string)
    ensures input == "" ==> Run(s, input) == Outcome(s, input, false)
    ensures Advance(s, input).NeedMore? ==> Run(s, input) == Outcome(s, input, false)
  {
    if input == "" { assert FindCrLf(input, 0) == 0; }
  }
}
