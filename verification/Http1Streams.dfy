/** Whole HTTP/1.1 streams: how the input is cut does not matter, and where it does. */
module Http1Streams {
  import opened Common
  import opened Http1Parser

  // ---------------------------------------------------------------- more input, same step

  lemma FindCrLfExtend(p: string, q: string, from: nat)
    requires from <= |p| && FindCrLf(p, from) < |p|
    ensures FindCrLf(p + q, from) == FindCrLf(p, from)
  {
    var r := FindCrLf(p, from);
    assert CrLfAt(p + q, r);
    forall i | from <= i < r ensures !CrLfAt(p + q, i) { assert !CrLfAt(p, i); }
    FindCrLfUnique(p + q, from, r);
  }

  lemma {:induction false} TrailersExtend(p: string, q: string, from: nat)
    requires from <= |p| && SkipTrailers(p, from).complete
    ensures SkipTrailers(p + q, from) == SkipTrailers(p, from)
    decreases |p| - from
  {
    FindCrLfExtend(p, q, from);
    var line := FindCrLf(p, from);
    if line > from { TrailersExtend(p, q, line + 2); }
  }

  lemma ChunkExtend(s: State, p: string, q: string)
    requires OnChunk(s, p).Go? || OnChunk(s, p).Fail?
    ensures OnChunk(s, p + q) == OnChunk(s, p)
  {
    hide Stoull, SizeText, SkipTrailers;
    var line := FindCrLf(p, 0);
    FindCrLfExtend(p, q, 0);
    assert (p + q)[..line] == p[..line];
    var size := Stoull(SizeText(p[..line]), 16);
    if size.Some? {
      var start := line + 2;
      if size.value == 0 {
        TrailersExtend(p, q, start);
      } else {
        assert (p + q)[start..start + size.value] == p[start..start + size.value];
      }
    }
  }

  lemma AdvanceExtend(s: State, p: string, q: string)
    requires Advance(s, p).Go? || Advance(s, p).Fail?
    ensures Advance(s, p + q) == Advance(s, p)
  {
    hide OnChunk, OnRequestLine, OnHeaderLine;
    if s.phase.Body? {
      if s.chunked {
        ChunkExtend(s, p, q);
      } else {
        assert (p + q)[..s.contentLength] == p[..s.contentLength];
      }
    } else {
      FindCrLfExtend(p, q, 0);
      assert (p + q)[..FindCrLf(p, 0)] == p[..FindCrLf(p, 0)];
    }
  }

  // ---------------------------------------------------------------- cutting the stream

  ghost predicate SameRun(a: Outcome, b: Outcome) {
    a.state == b.state && a.halted == b.halted && (!a.state.phase.Failed? ==> a.rest == b.rest)
  }

  lemma FailedStays(s: State, input: string)
    requires s.phase.Failed?
    ensures Run(s, input) == Outcome(s, input, false)
  {
  }

  lemma {:induction false} RunInTwo(s: State, p: string, q: string)
    requires !Run(s, p).halted
    ensures SameRun(Run(s, p + q), Run(Run(s, p).state, Run(s, p).rest + q))
    decreases |p|
  {
    hide Advance;
    match Advance(s, p)
    case NeedMore =>
    case Halt(_, _) =>
    case Fail(code) =>
      AdvanceExtend(s, p, q);
      FailedStays(s.(phase := Failed(code)), p + q);
    case Go(next, used) =>
      AdvanceExtend(s, p, q);
      assert (p + q)[used..] == p[used..] + q;
      RunInTwo(next, p[used..], q);
  }

  /** Successive feeds of one session; the connection is dropped after an error. */
  function FeedPieces(s: State, buffer: string, pieces: seq<string>): State
    decreases |pieces|
  {
    if pieces == [] || s.phase.Failed? then s
    else
      var r := Run(s, buffer + pieces[0]);
      FeedPieces(r.state, r.rest, pieces[1..])
  }

  /** No feed leaves off inside the trailer section of a chunked body. */
  predicate CutsAvoidTrailers(s: State, buffer: string, pieces: seq<string>)
    decreases |pieces|
  {
    pieces == [] || s.phase.Failed? ||
    (var r := Run(s, buffer + pieces[0]); !r.halted && CutsAvoidTrailers(r.state, r.rest, pieces[1..]))
  }

  lemma {:induction false} RunIsSettled(s: State, input: string)
    requires !Run(s, input).halted
    ensures var r := Run(s, input); Run(r.state, r.rest) == r
    decreases |input|
  {
    hide Advance;
    match Advance(s, input)
    case NeedMore =>
    case Halt(_, _) =>
    case Fail(code) => FailedStays(s.(phase := Failed(code)), input);
    case Go(next, used) => RunIsSettled(next, input[used..]);
  }

  lemma {:induction false} FeedPiecesIsRun(s: State, buffer: string, pieces: seq<string>)
    requires Run(s, buffer) == Outcome(s, buffer, false) && CutsAvoidTrailers(s, buffer, pieces)
    ensures FeedPieces(s, buffer, pieces) == Run(s, buffer + Flatten(pieces)).state
    ensures !Run(s, buffer + Flatten(pieces)).halted
    decreases |pieces|
  {
    hide Run;
    if pieces == [] {
      assert buffer + [] == buffer;
    } else if s.phase.Failed? {
      FailedStays(s, buffer + Flatten(pieces));
    } else {
      var p, q := buffer + pieces[0], Flatten(pieces[1..]);
      assert buffer + Flatten(pieces) == p + q;
      RunInTwo(s, p, q);
      RunIsSettled(s, p);
      FeedPiecesIsRun(Run(s, p).state, Run(s, p).rest, pieces[1..]);
    }
  }

  /** However the stream is cut outside trailers, the application handles the same requests in the same order. */
  lemma PiecesDoNotMatter(pieces: seq<string>)
    requires CutsAvoidTrailers(INITIAL, "", pieces)
    ensures FeedPieces(INITIAL, "", pieces) == Run(INITIAL, Flatten(pieces)).state
  {
    assert "" + Flatten(pieces) == Flatten(pieces);
    assert FindCrLf("", 0) == 0;
    FeedPiecesIsRun(INITIAL, "", pieces);
  }

  // ---------------------------------------------------------------- requests framed by Content-Length

  /** No request met on the way announces a chunked body. */
  predicate ContentLengthOnly(s: State, input: string)
    decreases |input|
  {
    !s.chunked && (Advance(s, input).Go? ==>
        ContentLengthOnly(Advance(s, input).state, input[Advance(s, input).used..]))
  }

  lemma NotChunkedNoHalt(s: State, input: string)
    requires !s.chunked
    ensures !Advance(s, input).Halt?
  {
  }

  lemma {:induction false} ContentLengthInTwo(s: State, p: string, q: string)
    requires ContentLengthOnly(s, p + q)
    ensures !Run(s, p).halted
    ensures ContentLengthOnly(Run(s, p).state, Run(s, p).rest + q)
    decreases |p|
  {
    hide Advance;
    NotChunkedNoHalt(s, p);
    match Advance(s, p)
    case NeedMore =>
    case Halt(_, _) =>
    case Fail(code) => FailedAdvances(s.(phase := Failed(code)), p + q);
    case Go(next, used) =>
      AdvanceExtend(s, p, q);
      assert (p + q)[used..] == p[used..] + q;
      ContentLengthInTwo(next, p[used..], q);
  }

  lemma FailedAdvances(s: State, input: string)
    requires s.phase.Failed?
    ensures Advance(s, input).NeedMore?
  {
  }

  lemma {:induction false} ContentLengthCuts(s: State, buffer: string, pieces: seq<string>)
    requires ContentLengthOnly(s, buffer + Flatten(pieces))
    ensures CutsAvoidTrailers(s, buffer, pieces)
    decreases |pieces|
  {
    hide ContentLengthOnly, Run;
    if pieces != [] && !s.phase.Failed? {
      var p, q := buffer + pieces[0], Flatten(pieces[1..]);
      assert buffer + Flatten(pieces) == p + q;
      ContentLengthInTwo(s, p, q);
      ContentLengthCuts(Run(s, p).state, Run(s, p).rest, pieces[1..]);
    }
  }

  /** For requests framed by Content-Length every partition will do. */
  lemma ContentLengthPieces(pieces: seq<string>)
    requires ContentLengthOnly(INITIAL, Flatten(pieces))
    ensures FeedPieces(INITIAL, "", pieces) == Run(INITIAL, Flatten(pieces)).state
  {
    assert "" + Flatten(pieces) == Flatten(pieces);
    ContentLengthCuts(INITIAL, "", pieces);
    PiecesDoNotMatter(pieces);
  }

  // ---------------------------------------------------------------- response bytes

  /** Responses to the requests from number `from` on; each may depend on everything handled so far. */
  function Output(respond: seq<Handled> -> string, handled: seq<Handled>, from: nat): string
    requires from <= |handled|
    decreases |handled| - from
  {
    if from == |handled| then "" else respond(handled[..from + 1]) + Output(respond, handled, from + 1)
  }

  lemma {:induction false} OutputInTwo(respond: seq<Handled> -> string, before: seq<Handled>, after: seq<Handled>,
                                       from: nat)
    requires from <= |before| <= |after| && before == after[..|before|]
    ensures Output(respond, after, from) == Output(respond, before, from) + Output(respond, after, |before|)
    decreases |before| - from
  {
    if from < |before| {
      assert after[..from + 1] == before[..from + 1];
      OutputInTwo(respond, before, after, from + 1);
    }
  }

  lemma {:induction false} HandledGrows(s: State, input: string)
    ensures |s.handled| <= |Run(s, input).state.handled| && s.handled == Run(s, input).state.handled[..|s.handled|]
    decreases |input|
  {
    hide Stoull, Lower, Trimmed, SkipTrailers, SizeText;
    var step := Advance(s, input);
    if step.Go? {
      StepGrows(s, input);
      HandledGrows(step.state, input[step.used..]);
    } else if step.Halt? {
      StepGrows(s, input);
    }
  }

  lemma StepGrows(s: State, input: string)
    ensures var step := Advance(s, input);
            (step.Go? || step.Halt?) ==>
              |s.handled| <= |step.state.handled| && s.handled == step.state.handled[..|s.handled|]
  {
    hide Stoull, Lower, Trimmed, SkipTrailers, SizeText, FindCrLf;
    assert s.handled[..|s.handled|] == s.handled;
  }

  /** The output of each feed, concatenated. */
  function OutputPieces(respond: seq<Handled> -> string, s: State, buffer: string, pieces: seq<string>): string
    decreases |pieces|
  {
    if pieces == [] || s.phase.Failed? then ""
    else
      var r := Run(s, buffer + pieces[0]);
      HandledGrows(s, buffer + pieces[0]);
      Output(respond, r.state.handled, |s.handled|) + OutputPieces(respond, r.state, r.rest, pieces[1..])
  }

  lemma {:induction false} OutputPiecesIs(respond: seq<Handled> -> string, s: State, buffer: string,
                                          pieces: seq<string>)
    ensures |s.handled| <= |FeedPieces(s, buffer, pieces).handled|
    ensures s.handled == FeedPieces(s, buffer, pieces).handled[..|s.handled|]
    ensures OutputPieces(respond, s, buffer, pieces) ==
            Output(respond, FeedPieces(s, buffer, pieces).handled, |s.handled|)
    decreases |pieces|
  {
    hide Run;
    if pieces == [] || s.phase.Failed? {
      assert s.handled[..|s.handled|] == s.handled;
    } else {
      var r := Run(s, buffer + pieces[0]);
      HandledGrows(s, buffer + pieces[0]);
      OutputPiecesIs(respond, r.state, r.rest, pieces[1..]);
      var final := FeedPieces(r.state, r.rest, pieces[1..]).handled;
      assert s.handled == final[..|s.handled|] by {
        assert final[..|r.state.handled|][..|s.handled|] == final[..|s.handled|];
      }
      OutputInTwo(respond, r.state.handled, final, |s.handled|);
    }
  }

  /** If one feed of the whole stream succeeds, every partition writes the same bytes. */
  lemma SameOutput(respond: seq<Handled> -> string, pieces: seq<string>)
    requires ContentLengthOnly(INITIAL, Flatten(pieces))
    requires !Run(INITIAL, Flatten(pieces)).state.phase.Failed?
    ensures OutputPieces(respond, INITIAL, "", pieces) ==
            Output(respond, Run(INITIAL, Flatten(pieces)).state.handled, 0)
    ensures !FeedPieces(INITIAL, "", pieces).phase.Failed?
  {
    hide Run;
    ContentLengthPieces(pieces);
    OutputPiecesIs(respond, INITIAL, "", pieces);
  }

  lemma ZeroSize()
    ensures Stoull("0", 16) == Some(0) && Stoull("", 16) == None
  {
    assert "0"[1..] == "";
    assert LeadingNumber("", 16, Number(1, 0)) == Number(1, 0);
    assert LeadingNumber("0", 16, Number(0, 0)) == Number(1, 0);
  }
}
