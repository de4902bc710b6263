/**
 Exactly when the pieces a STOMP stream arrives in do not matter: when no LF heartbeat follows a CRLF one between
 two frames. The decoder strips LFs first and CRLFs second, so such an LF is read as an empty command, unless a
 feed ends just before it.
 */
module StompChunking {
  import opened Common
  import opened StompCodec

  /** At no frame boundary does an LF follow a CRLF heartbeat. */
  predicate NoStray(s: string)
    decreases |s|
  {
    var b := StripHeartbeats(s);
    !StartsWithLf(b) && (ParseFrame(b).Ok? ==> NoStray(ParseFrame(b).rest))
  }

  // ---------------------------------------------------------------- no stray LF: pieces do not matter

  /** Without a stray LF, a stream cut in two decodes, or fails, as the whole does. */
  lemma {:induction false} CutAnywhere(p: string, q: string)
    requires NoStray(p + q)
    ensures Decode(p).Failed? ==> Decode(p + q).Failed?
    ensures Decode(p).Decoded? ==>
              && Decode(p + q) == Prefixed(Decode(p).frames, Decode(Decode(p).rest + q))
              && NoStray(Decode(p).rest + q)
    decreases |p|
  {
    hide ParseFrame, StripHeartbeats;
    var b := StripHeartbeats(p);
    StripExtend(p, q);
    assert StripHeartbeats(p + q) == StripHeartbeats(b + q);
    SameStart(p + q, b + q);
    if ParseFrame(b).NeedMore? {
      PrefixedNothing(Decode(b + q));
    } else {
      LineIsThere(p);
      StrippedStays(b, q);
      FrameExtend(b, q);
      var r := ParseFrame(b);
      if r.Ok? {
        CutAnywhere(r.rest, q);
        var d := Decode(r.rest);
        if d.Decoded? { PrefixedCons(r.value, d.frames, Decode(d.rest + q)); }
      }
    }
  }

  lemma SameStart(s: string, t: string)
    requires StripHeartbeats(s) == StripHeartbeats(t)
    ensures Decode(s) == Decode(t) && NoStray(s) == NoStray(t)
  {
  }

  lemma LineIsThere(p: string)
    requires !ParseFrame(StripHeartbeats(p)).NeedMore?
    ensures var b := StripHeartbeats(p); Find(b, '\n', 0) < |b| && !StartsWithCrLf(b)
  {
  }

  lemma {:induction false} PiecesAreWhole(buffer: string, pieces: seq<string>)
    requires Decode(buffer) == Decoded([], buffer) && NoStray(buffer + Flatten(pieces))
    ensures FeedPieces(buffer, pieces) == Decode(buffer + Flatten(pieces))
    decreases |pieces|
  {
    hide Decode, NoStray;
    if pieces == [] {
      assert buffer + [] == buffer;
    } else {
      var p, q := buffer + pieces[0], Flatten(pieces[1..]);
      assert buffer + Flatten(pieces) == p + q;
      CutAnywhere(p, q);
      if Decode(p).Decoded? {
        RestIsSettled(p);
        PiecesAreWhole(Decode(p).rest, pieces[1..]);
      }
    }
  }

  lemma {:induction false} PrefixHasNoStray(p: string, q: string)
    requires NoStray(p + q)
    ensures NoStray(p)
    decreases |p|
  {
    hide ParseFrame, StripHeartbeats;
    var b := StripHeartbeats(p);
    StripExtend(p, q);
    if ParseFrame(b).Ok? {
      LineIsThere(p);
      SameStart(p + q, b + q);
      StrippedStays(b, q);
      FrameExtend(b, q);
      PrefixHasNoStray(ParseFrame(b).rest, q);
    }
  }

  // ---------------------------------------------------------------- a stray LF: cut just before it

  lemma FindInFront(x: string, y: string, c: char)
    requires Find(x + y, c, 0) < |x|
    ensures Find(x, c, 0) == Find(x + y, c, 0)
  {
    var r := Find(x + y, c, 0);
    forall i | 0 <= i < r ensures x[i] != c { assert (x + y)[i] == x[i]; }
    assert (x + y)[r] == x[r];
    FindUnique(x, c, 0, r);
  }

  /** What a parse has consumed is all it needed. */
  lemma {:induction false} HeadersComplete(x: string, y: string, headers: map<string, string>)
    requires ParseHeaders(x + y, headers).Ok? && |ParseHeaders(x + y, headers).rest| >= |y|
    ensures ParseHeaders(x, headers).Ok?
    decreases |x|
  {
    hide ParseHeaderLine;
    var end := Find(x + y, '\n', 0);
    FindInFront(x, y, '\n');
    assert (x + y)[..end] == x[..end] && (x + y)[end + 1..] == x[end + 1..] + y;
    var line := StripCr(x[..end]);
    if line != [] {
      var h := ParseHeaderLine(line);
      HeadersComplete(x[end + 1..], y, headers[h.name := h.value]);
    }
  }

  lemma BodyComplete(x: string, y: string, headers: map<string, string>)
    requires ParseBody(x + y, headers).Ok? && |ParseBody(x + y, headers).rest| >= |y|
    ensures ParseBody(x, headers).Ok?
  {
    if CONTENT_LENGTH !in headers { FindInFront(x, y, '\0'); }
  }

  lemma FrameComplete(x: string, y: string)
    requires ParseFrame(x + y).Ok? && |ParseFrame(x + y).rest| >= |y|
    ensures ParseFrame(x).Ok? && ParseFrame(x + y) == Ok(ParseFrame(x).value, ParseFrame(x).rest + y)
  {
    hide ParseHeaders, ParseBody;
    var end := Find(x + y, '\n', 0);
    BodyShrinks(x + y);
    FindInFront(x, y, '\n');
    assert (x + y)[..end] == x[..end] && (x + y)[end + 1..] == x[end + 1..] + y;
    HeadersComplete(x[end + 1..], y, map[]);
    HeadersExtend(x[end + 1..], y, map[]);
    var h := ParseHeaders(x[end + 1..], map[]);
    BodyComplete(h.rest, y, h.value);
    FrameExtend(x, y);
  }

  /** Each part of a frame consumes something. */
  lemma BodyShrinks(s: string)
    requires ParseFrame(s).Ok?
    ensures var end := Find(s, '\n', 0);
            && end < |s| && ParseHeaders(s[end + 1..], map[]).Ok?
            && |ParseFrame(s).rest| < |ParseHeaders(s[end + 1..], map[]).rest| < |s| - end - 1
  {
    hide ParseHeaders, ParseBody;
  }

  /** A parsed frame is a front of the input that parses alone. */
  lemma FrameIsFront(s: string)
    requires ParseFrame(s).Ok?
    ensures var r := ParseFrame(s);
            && |r.rest| <= |s| && s == s[..|s| - |r.rest|] + r.rest
            && ParseFrame(s[..|s| - |r.rest|]) == Ok(r.value, "")
  {
    hide ParseFrame;
    var k := |s| - |ParseFrame(s).rest|;
    assert s == s[..k] + s[k..];
    FrameComplete(s[..k], s[k..]);
    assert |ParseFrame(s[..k]).rest| == 0;
    assert "" + s[k..] == s[k..];
  }

  lemma {:induction false} StripLfSuffix(s: string)
    ensures var r := StripLf(s); r == s[|s| - |r|..] && StripLf(s[..|s| - |r|]) == ""
  {
    if StartsWithLf(s) {
      StripLfSuffix(s[1..]);
      var k := |StripLf(s)|;
      assert s[1..][|s| - 1 - k..] == s[|s| - k..] && s[..|s| - k][1..] == s[1..][..|s| - 1 - k];
    }
  }

  lemma {:induction false} StripCrLfSuffix(s: string)
    ensures var r := StripCrLf(s); r == s[|s| - |r|..] && StripCrLf(s[..|s| - |r|]) == ""
    decreases |s|
  {
    if StartsWithCrLf(s) {
      StripCrLfSuffix(s[2..]);
      var k := |StripCrLf(s)|;
      assert s[2..][|s| - 2 - k..] == s[|s| - k..] && s[..|s| - k][2..] == s[2..][..|s| - 2 - k];
    }
  }

  /** The heartbeats in front of `StripHeartbeats(s)` are nothing but heartbeats. */
  lemma StripSuffix(s: string)
    ensures var r := StripHeartbeats(s); r == s[|s| - |r|..] && StripHeartbeats(s[..|s| - |r|]) == ""
  {
    hide *;
    StripIs(s);
    StripLfSuffix(s);
    var l := StripLf(s);
    StripCrLfSuffix(l);
    var r := StripCrLf(l);
    var lfs, crlfs := s[..|s| - |l|], l[..|l| - |r|];
    SuffixOfSuffix(s, l, r);
    StripLfExtend(lfs, crlfs);
    NoLeadingLf(crlfs, l);
    StripIs(lfs + crlfs);
  }

  lemma StripIs(s: string)
    ensures StripHeartbeats(s) == StripCrLf(StripLf(s))
  {
  }

  lemma SuffixOfSuffix(s: string, l: string, r: string)
    requires |r| <= |l| <= |s| && l == s[|s| - |l|..] && r == l[|l| - |r|..]
    ensures s[..|s| - |r|] == s[..|s| - |l|] + l[..|l| - |r|] && s[|s| - |r|..] == r
  {
  }

  lemma NoLeadingLf(front: string, l: string)
    requires front <= l && (l != "" ==> l[0] != '\n')
    ensures StripLf(front) == front
  {
  }

  /** An LF at the front of what is left after stripping stays there when nothing follows it. */
  lemma StrayAlone(s: string)
    requires StartsWithLf(StripHeartbeats(s))
    ensures var n := |s| - |StripHeartbeats(s)|;
            && n < |s| && s[..n + 1] == s[..n] + "\n"
            && StripHeartbeats(s[..n]) == "" && StripHeartbeats(s[..n + 1]) == "\n"
  {
    var b := StripHeartbeats(s);
    var h := s[..|s| - |b|];
    StripSuffix(s);
    assert s == h + b && s[..|h| + 1] == h + "\n";
    var l := StripLf(h);
    StripLfExtend(h, b);
    assert l != "";
    StripLfExtend(h, "\n");
    StripCrLfExtend(l, "\n");
    assert "" + "\n" == "\n" && StripCrLf("\n") == "\n";
  }

  /** The shortest stream that shows a stray LF, and where to cut it. */
  lemma {:induction false} StrayMatters(s: string) returns (n: nat, frames: seq<Frame>)
    requires !NoStray(s)
    ensures n < |s| && s[..n + 1] == s[..n] + "\n"
    ensures Decode(s[..n]) == Decoded(frames, "") && Decode(s[..n + 1]).Failed?
    decreases |s|
  {
    hide ParseFrame;
    var b := StripHeartbeats(s);
    if StartsWithLf(b) {
      n, frames := |s| - |b|, [];
      StrayAlone(s);
      LeadingLfFails(s[..n + 1]);
      EmptyNeedsMore();
    } else {
      var r := ParseFrame(b);
      var k, more := StrayMatters(r.rest);
      n, frames := |s| - |r.rest| + k, [r.value] + more;
      BeforeStray(s, k);
      BeforeStray(s, k + 1);
      assert r.rest == s[|s| - |r.rest|..] && s[n] == r.rest[k];
    }
  }

  lemma EmptyNeedsMore()
    ensures ParseFrame("").NeedMore?
  {
  }

  /** Decoding a stream cut `k` characters after its first frame. */
  lemma BeforeStray(s: string, k: nat)
    requires ParseFrame(StripHeartbeats(s)).Ok? && k <= |ParseFrame(StripHeartbeats(s)).rest|
    ensures var r := ParseFrame(StripHeartbeats(s));
            && |r.rest| <= |s| && r.rest == s[|s| - |r.rest|..]
            && Decode(s[..|s| - |r.rest| + k]) == Cons(r.value, Decode(r.rest[..k]))
  {
    hide ParseFrame, StripHeartbeats;
    var b := StripHeartbeats(s);
    var r := ParseFrame(b);
    StripSuffix(s);
    FrameIsFront(b);
    var h, x, y := s[..|s| - |b|], b[..|b| - |r.rest|], r.rest[..k];
    assert s == h + (x + r.rest);
    assert s[..|s| - |r.rest| + k] == h + (x + y) && s[|s| - |r.rest|..] == r.rest;
    FrameExtend(x, y);
    assert "" + y == y;
    LineIsThere(s);
    FrameHasLine(x);
    assert x[0] == b[0] && x[1] == b[1] && (x + y)[0] == b[0] && (x + y)[1] == b[1];
    NoStrayInside(h, x + y);
  }

  lemma FrameHasLine(x: string)
    ensures ParseFrame(x).Ok? ==> |x| >= 2 && !StartsWithLf(x)
  {
  }

  lemma NoStrayInside(h: string, b: string)
    requires StripHeartbeats(h) == "" && b != "" && !StartsWithLf(b) && !StartsWithCrLf(b)
    ensures StripHeartbeats(h + b) == b
  {
    StripLfExtend(h, b);
    var l := StripLf(h);
    if l == "" {
      assert StripLf(b) == b;
    } else {
      StripCrLfExtend(l, b);
      assert "" + b == b;
    }
  }

  // ---------------------------------------------------------------- both directions

  ghost predicate PiecesNeverMatter(s: string) {
    forall t, pieces {:trigger FeedPieces("", pieces), Decode(t)} ::
      t <= s && Flatten(pieces) == t ==> FeedPieces("", pieces) == Decode(t)
  }

  /**
   Pieces never matter to a stream, at any stage of its arrival and whether it decodes or fails, if and only if it
   has no stray LF.
   */
  lemma ChunkingExact(s: string)
    ensures NoStray(s) <==> PiecesNeverMatter(s)
  {
    if NoStray(s) {
      forall t, pieces | t <= s && Flatten(pieces) == t ensures FeedPieces("", pieces) == Decode(t) {
        assert s == t + s[|t|..] && "" + t == t;
        PrefixHasNoStray(t, s[|t|..]);
        NothingDecodes();
        PiecesAreWhole("", pieces);
      }
    } else {
      var n, frames := StrayMatters(s);
      StrayApart(s, n, frames);
    }
  }

  lemma NothingDecodes()
    ensures Decode("") == Decoded([], "") && Decode("\n") == Decoded([], "")
  {
    assert "\n"[1..] == "";
  }

  lemma StrayApart(s: string, n: nat, frames: seq<Frame>)
    requires n < |s| && s[..n + 1] == s[..n] + "\n"
    requires Decode(s[..n]) == Decoded(frames, "") && Decode(s[..n + 1]).Failed?
    ensures !PiecesNeverMatter(s)
  {
    hide Decode;
    var pieces := [s[..n], "\n"];
    assert pieces[1..] == ["\n"] && ["\n"][1..] == [];
    assert Flatten(["\n"]) == "\n" by { FlattenSingleton("\n"); }
    assert Flatten(pieces) == s[..n + 1];
    NothingDecodes();
    assert "" + s[..n] == s[..n] && "" + "\n" == "\n";
    assert FeedPieces("", ["\n"]).Decoded?;
    assert FeedPieces("", pieces).Decoded?;
    assert s[..n + 1] <= s;
  }
}
