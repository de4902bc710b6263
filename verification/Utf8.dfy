/** The UTF-8 validator, against the encoding of section 3 of RFC 3629. */
module Utf8 {
  import opened Common

  /** A Unicode scalar value: no surrogates, nothing above 0x10FFFF. */
  type Scalar = v: int | 0 <= v < 0xD800 || 0xE000 <= v < 0x110000

  function Encode(v: Scalar): (r: seq<byte>)
    ensures 1 <= |r| <= 4
  {
    if v < 0x80 then [v]
    else if v < 0x800 then [0xC0 + v / 64, 0x80 + v % 64]
    else if v < 0x10000 then [0xE0 + v / 4096, 0x80 + v / 64 % 64, 0x80 + v % 64]
    else [0xF0 + v / 262144, 0x80 + v / 4096 % 64, 0x80 + v / 64 % 64, 0x80 + v % 64]
  }

  function EncodeAll(text: seq<Scalar>): seq<byte> {
    if text == [] then [] else Encode(text[0]) + EncodeAll(text[1..])
  }

  // ---------------------------------------------------------------- the decision procedure

  /** Number of continuation bytes announced by a lead byte above 0x7F, and the payload bits it carries. */
  datatype Lead = BadLead | Lead(count: nat, bits: nat)

  function LeadOf(ch: byte): (lead: Lead)
    ensures lead.Lead? ==> 1 <= lead.count <= 3
  {
    if ch / 32 == 6 then Lead(1, ch % 32)
    else if ch / 16 == 14 then Lead(2, ch % 16)
    else if ch / 8 == 30 then Lead(3, ch % 8)
    else BadLead
  }

  predicate IsContinuation(b: byte) { b / 64 == 2 }

  /** Appends six bits per continuation byte. */
  function Append(value: nat, tail: seq<byte>): nat {
    if tail == [] then value else Append(value, tail[..|tail| - 1]) * 64 + tail[|tail| - 1] % 64
  }

  predicate Acceptable(count: nat, value: nat) {
    && !(count == 1 && value < 0x80) && !(count == 2 && value < 0x800) && !(count == 3 && value < 0x10000)
    && value <= 0x10FFFF && !(0xD800 <= value <= 0xDFFF)
  }

  /** Length of the well-formed character at the front of `bytes`, 0 when there is none. */
  function Character(bytes: seq<byte>): (n: nat)
    requires bytes != []
    ensures n <= |bytes|
  {
    if bytes[0] <= 0x7F then 1
    else
      var lead := LeadOf(bytes[0]);
      if lead.BadLead? || lead.count >= |bytes| then 0
      else
        var tail := bytes[1..lead.count + 1];
        if (forall i :: 0 <= i < |tail| ==> IsContinuation(tail[i])) && Acceptable(lead.count, Append(lead.bits, tail))
        then lead.count + 1
        else 0
  }

  predicate WellFormed(bytes: seq<byte>) {
    bytes == [] || (Character(bytes) > 0 && WellFormed(bytes[Character(bytes)..]))
  }

  method ValidUtf8(bytes: seq<byte>) returns (valid: bool)
    ensures valid == exists text :: bytes == EncodeAll(text)
  {
    hide EncodeAll, Append, IsContinuation, Acceptable, LeadOf;
    WellFormedIsEncoded(bytes);
    assert bytes[0..] == bytes;
    var i := 0;
    while i < |bytes|
      invariant 0 <= i <= |bytes|
      invariant WellFormed(bytes) == WellFormed(bytes[i..])
    {
      var ch := bytes[i];
      if ch <= 0x7F {
        assert bytes[i..][1..] == bytes[i + 1..];
        i := i + 1;
        continue;
      }
      var lead := LeadOf(ch);
      if lead.BadLead? { return false; }
      if i + lead.count >= |bytes| { return false; }
      var ok, value := ReadTail(bytes, i, lead);
      if !ok { return false; }
      if !Acceptable(lead.count, value) { return false; }
      assert bytes[i..][lead.count + 1..] == bytes[i + lead.count + 1..];
      i := i + lead.count + 1;
    }
    return true;
  }

  /** The inner loop: continuation bytes must have the right form, and build up the value. */
  method ReadTail(bytes: seq<byte>, i: nat, lead: Lead) returns (ok: bool, value: nat)
    requires lead.Lead? && i + lead.count < |bytes|
    ensures var tail := bytes[i..][1..lead.count + 1];
            && ok == (forall k :: 0 <= k < |tail| ==> IsContinuation(tail[k]))
            && (ok ==> value == Append(lead.bits, tail))
  {
    value := lead.bits;
    ghost var tail := bytes[i..][1..lead.count + 1];
    for j := 0 to lead.count
      invariant forall k :: 0 <= k < j ==> IsContinuation(tail[k])
      invariant value == Append(lead.bits, tail[..j])
    {
      var continuation := bytes[i + j + 1];
      assert tail[j] == continuation;
      if !IsContinuation(continuation) { return false, value; }
      assert tail[..j + 1][..j] == tail[..j];
      value := value * 64 + continuation % 64;
    }
    assert tail[..lead.count] == tail;
    ok := true;
  }

  // ---------------------------------------------------------------- it decides encodability

  lemma AppendOne(value: nat, a: byte)
    ensures Append(value, [a]) == value * 64 + a % 64
  {
    assert [a][..0] == [];
    assert Append(value, [a][..0]) == value;
  }

  lemma AppendTwo(value: nat, a: byte, b: byte)
    ensures Append(value, [a, b]) == (value * 64 + a % 64) * 64 + b % 64
  {
    assert [a, b][..1] == [a];
    AppendOne(value, a);
  }

  lemma AppendThree(value: nat, a: byte, b: byte, c: byte)
    ensures Append(value, [a, b, c]) == ((value * 64 + a % 64) * 64 + b % 64) * 64 + c % 64
  {
    assert [a, b, c][..2] == [a, b];
    AppendTwo(value, a, b);
  }

  // Positional arithmetic in base 64, one lemma per encoded length.

  lemma Digits(high: nat, low: nat)
    requires low < 64
    ensures (high * 64 + low) / 64 == high && (high * 64 + low) % 64 == low
  {
  }

  lemma ContinuationOf(d: nat)
    requires d < 64
    ensures IsContinuation(0x80 + d) && (0x80 + d) % 64 == d
  {
  }

  lemma FourDigits(a: nat, b: nat, c: nat, d: nat)
    requires b < 64 && c < 64 && d < 64
    ensures var v := ((a * 64 + b) * 64 + c) * 64 + d;
            v % 64 == d && v / 64 == (a * 64 + b) * 64 + c && v / 64 % 64 == c && v / 4096 == a * 64 + b &&
            v / 4096 % 64 == b && v / 262144 == a
  {
    var v := ((a * 64 + b) * 64 + c) * 64 + d;
    Digits((a * 64 + b) * 64 + c, d);
    Digits(a * 64 + b, c);
    Digits(a, b);
    assert v / 4096 == v / 64 / 64 && v / 262144 == v / 64 / 64 / 64;
  }

  lemma Recompose(v: nat)
    ensures (v / 4096 * 64 + v / 64 % 64) * 64 + v % 64 == v
    ensures ((v / 262144 * 64 + v / 4096 % 64) * 64 + v / 64 % 64) * 64 + v % 64 == v
  {
    var w := v / 64;
    var x := w / 64;
    assert v / 4096 == x && v / 262144 == x / 64;
    assert x / 64 * 64 + x % 64 == x && x * 64 + w % 64 == w && w * 64 + v % 64 == v;
  }

  lemma LeadBytes(x: nat)
    ensures 2 <= x < 32 ==> LeadOf(0xC0 + x) == Lead(1, x)
    ensures x < 16 ==> LeadOf(0xE0 + x) == Lead(2, x)
    ensures x < 8 ==> LeadOf(0xF0 + x) == Lead(3, x)
  {
  }

  lemma LeadInverse(ch: byte)
    requires LeadOf(ch).Lead?
    ensures var lead := LeadOf(ch);
            && (lead.count == 1 ==> ch == 0xC0 + lead.bits && lead.bits < 32)
            && (lead.count == 2 ==> ch == 0xE0 + lead.bits && lead.bits < 16)
            && (lead.count == 3 ==> ch == 0xF0 + lead.bits && lead.bits < 8)
  {
  }

  lemma ContinuationInverse(b: byte)
    requires IsContinuation(b)
    ensures b == 0x80 + b % 64
  {
  }

  lemma SpelledIsCharacter(first: byte, tail: seq<byte>, v: nat, rest: seq<byte>)
    requires first > 0x7F && LeadOf(first).Lead? && LeadOf(first).count == |tail|
    requires forall i :: 0 <= i < |tail| ==> IsContinuation(tail[i])
    requires Append(LeadOf(first).bits, tail) == v && Acceptable(|tail|, v)
    ensures Character([first] + tail + rest) == |tail| + 1
  {
    var bytes := [first] + tail + rest;
    assert bytes[0] == first && bytes[1..|tail| + 1] == tail;
  }

  lemma EncodedInTwo(v: Scalar, rest: seq<byte>)
    requires 0x80 <= v < 0x800
    ensures Character(Encode(v) + rest) == 2
  {
    hide Character, Append, LeadOf, IsContinuation;
    var high, d := v / 64, v % 64;
    LeadBytes(high);
    ContinuationOf(d);
    AppendOne(high, 0x80 + d);
    SpelledIsCharacter(0xC0 + high, [0x80 + d], v, rest);
    assert Encode(v) == [0xC0 + high] + [0x80 + d];
  }

  lemma EncodedInThree(v: Scalar, rest: seq<byte>)
    requires 0x800 <= v < 0x10000
    ensures Character(Encode(v) + rest) == 3
  {
    hide Character, Append, LeadOf, IsContinuation;
    var high, c, d := v / 4096, v / 64 % 64, v % 64;
    LeadBytes(high);
    ContinuationOf(c);
    ContinuationOf(d);
    AppendTwo(high, 0x80 + c, 0x80 + d);
    Recompose(v);
    SpelledIsCharacter(0xE0 + high, [0x80 + c, 0x80 + d], v, rest);
    assert Encode(v) == [0xE0 + high] + [0x80 + c, 0x80 + d];
  }

  lemma EncodedInFour(v: Scalar, rest: seq<byte>)
    requires 0x10000 <= v
    ensures Character(Encode(v) + rest) == 4
  {
    hide Character, Append, LeadOf, IsContinuation;
    var a, b, c, d := v / 262144, v / 4096 % 64, v / 64 % 64, v % 64;
    LeadBytes(a);
    ContinuationOf(b);
    ContinuationOf(c);
    ContinuationOf(d);
    AppendThree(a, 0x80 + b, 0x80 + c, 0x80 + d);
    Recompose(v);
    SpelledIsCharacter(0xF0 + a, [0x80 + b, 0x80 + c, 0x80 + d], v, rest);
    assert Encode(v) == [0xF0 + a] + [0x80 + b, 0x80 + c, 0x80 + d];
  }

  /** A scalar's encoding is recognised, whatever follows. */
  lemma EncodedIsCharacter(v: Scalar, rest: seq<byte>)
    ensures Character(Encode(v) + rest) == |Encode(v)|
  {
    hide Character;
    if v < 0x80 { SingleByte(v, rest); }
    else if v < 0x800 { EncodedInTwo(v, rest); }
    else if v < 0x10000 { EncodedInThree(v, rest); }
    else { EncodedInFour(v, rest); }
  }

  lemma SingleByte(v: byte, rest: seq<byte>)
    requires v < 0x80
    ensures Character([v] + rest) == 1
  {
    assert ([v] + rest)[0] == v;
  }

  /** A recognised character is some scalar's encoding. */
  lemma CharacterIsEncoded(bytes: seq<byte>) returns (v: Scalar)
    requires bytes != [] && Character(bytes) > 0
    ensures bytes[..Character(bytes)] == Encode(v)
  {
    if bytes[0] <= 0x7F {
      v := bytes[0];
    } else {
      var lead := LeadOf(bytes[0]);
      var tail := bytes[1..lead.count + 1];
      assert bytes[..lead.count + 1] == [bytes[0]] + tail;
      v := TailIsEncoded(bytes[0], tail);
    }
  }

  /** A value assembled from `bits` and one to three continuation bytes spells those bytes. */
  lemma SpelledInTwo(bits: nat, a: byte, v: nat)
    requires IsContinuation(a) && bits < 32 && v == bits * 64 + a % 64 && Acceptable(1, v)
    ensures Encode(v) == [0xC0 + bits, a]
  {
    ContinuationInverse(a);
  }

  lemma SpelledInThree(bits: nat, a: byte, b: byte, v: nat)
    requires IsContinuation(a) && IsContinuation(b) && bits < 16
    requires v == (bits * 64 + a % 64) * 64 + b % 64 && Acceptable(2, v)
    ensures Encode(v) == [0xE0 + bits, a, b]
  {
    ContinuationInverse(a);
    ContinuationInverse(b);
    hide IsContinuation;
    FourDigits(0, bits, a % 64, b % 64);
  }

  lemma SpelledInFour(bits: nat, a: byte, b: byte, c: byte, v: nat)
    requires IsContinuation(a) && IsContinuation(b) && IsContinuation(c) && bits < 8
    requires v == ((bits * 64 + a % 64) * 64 + b % 64) * 64 + c % 64 && Acceptable(3, v)
    ensures Encode(v) == [0xF0 + bits, a, b, c]
  {
    ContinuationInverse(a);
    ContinuationInverse(b);
    ContinuationInverse(c);
    hide IsContinuation;
    FourDigits(bits, a % 64, b % 64, c % 64);
  }

  lemma TailIsEncoded(first: byte, tail: seq<byte>) returns (v: Scalar)
    requires first > 0x7F && LeadOf(first).Lead? && LeadOf(first).count == |tail|
    requires forall i :: 0 <= i < |tail| ==> IsContinuation(tail[i])
    requires Acceptable(|tail|, Append(LeadOf(first).bits, tail))
    ensures [first] + tail == Encode(v)
  {
    hide LeadOf, Append, IsContinuation, Encode;
    var bits := LeadOf(first).bits;
    LeadInverse(first);
    v := Append(bits, tail);
    if |tail| == 1 {
      assert tail == [tail[0]];
      AppendOne(bits, tail[0]);
      SpelledInTwo(bits, tail[0], v);
    } else if |tail| == 2 {
      assert tail == [tail[0], tail[1]];
      AppendTwo(bits, tail[0], tail[1]);
      SpelledInThree(bits, tail[0], tail[1], v);
    } else {
      assert tail == [tail[0], tail[1], tail[2]];
      AppendThree(bits, tail[0], tail[1], tail[2]);
      SpelledInFour(bits, tail[0], tail[1], tail[2], v);
    }
  }

  lemma {:induction false} EncodedIsWellFormed(text: seq<Scalar>)
    ensures WellFormed(EncodeAll(text))
  {
    if text != [] {
      var bytes, rest := EncodeAll(text), EncodeAll(text[1..]);
      EncodedIsCharacter(text[0], rest);
      assert bytes[|Encode(text[0])|..] == rest;
      EncodedIsWellFormed(text[1..]);
    }
  }

  lemma {:induction false} WellFormedHasText(bytes: seq<byte>) returns (text: seq<Scalar>)
    requires WellFormed(bytes)
    ensures bytes == EncodeAll(text)
    decreases |bytes|
  {
    hide Character, Encode;
    if bytes == [] {
      text := [];
    } else {
      var n := Character(bytes);
      var v := CharacterIsEncoded(bytes);
      var more := WellFormedHasText(bytes[n..]);
      text := [v] + more;
      assert text[1..] == more && bytes == bytes[..n] + bytes[n..];
    }
  }

  /** Accepted byte strings are exactly the concatenated encodings of scalar values. */
  lemma WellFormedIsEncoded(bytes: seq<byte>)
    ensures WellFormed(bytes) <==> exists text :: bytes == EncodeAll(text)
  {
    if WellFormed(bytes) {
      var text := WellFormedHasText(bytes);
    }
    forall text | bytes == EncodeAll(text) ensures WellFormed(bytes) { EncodedIsWellFormed(text); }
  }
}
