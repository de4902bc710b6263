/** WebSocket framing (sections 5.2 and 5.3 of RFC 6455): what the reader recognises and the writer emits. */
module WebSocketFrames {
  import opened Common

  datatype Opcode = Continuation | Text | Binary | Close | Ping | Pong

  function OpcodeValue(op: Opcode): (v: byte)
    ensures v < 16
  {
    match op
    case Continuation => 0
    case Text => 1
    case Binary => 2
    case Close => 8
    case Ping => 9
    case Pong => 10
  }

  function OpcodeOf(v: nat): Option<Opcode> {
    if v == 0 then Some(Continuation)
    else if v == 1 then Some(Text)
    else if v == 2 then Some(Binary)
    else if v == 8 then Some(Close)
    else if v == 9 then Some(Ping)
    else if v == 10 then Some(Pong)
    else None
  }

  predicate IsControl(op: Opcode) { op.Close? || op.Ping? || op.Pong? }

  // ---------------------------------------------------------------- masking

  /** Exclusive or of two `n`-bit numbers, bit by bit. */
  function XorBits(a: nat, b: nat, n: nat): nat {
    if n == 0 then 0 else (if a % 2 != b % 2 then 1 else 0) + 2 * XorBits(a / 2, b / 2, n - 1)
  }

  function Pow2(n: nat): nat { if n == 0 then 1 else 2 * Pow2(n - 1) }

  lemma {:induction false} XorBound(a: nat, b: nat, n: nat)
    ensures XorBits(a, b, n) < Pow2(n)
  {
    if n > 0 { XorBound(a / 2, b / 2, n - 1); }
  }

  lemma {:induction false} XorInvolution(a: nat, b: nat, n: nat)
    requires a < Pow2(n)
    ensures XorBits(XorBits(a, b, n), b, n) == a
  {
    if n > 0 {
      var x := XorBits(a / 2, b / 2, n - 1);
      var bit := if a % 2 != b % 2 then 1 else 0;
      XorInvolution(a / 2, b / 2, n - 1);
      assert XorBits(a, b, n) == bit + 2 * x;
      assert (bit + 2 * x) / 2 == x && (bit + 2 * x) % 2 == bit;
    }
  }

  lemma Pow2Of8()
    ensures Pow2(8) == 256
  {
    assert Pow2(4) == 16;
    assert Pow2(6) == 4 * Pow2(4);
    assert Pow2(8) == 4 * Pow2(6);
  }

  function Xor(a: byte, b: byte): (r: byte) {
    Pow2Of8();
    XorBound(a, b, 8);
    XorBits(a, b, 8)
  }

  /** Bit `i` of a number, counted from the low end. */
  function Bit(a: nat, i: nat): nat { if i == 0 then a % 2 else Bit(a / 2, i - 1) }

  lemma {:induction false} XorBitsAt(a: nat, b: nat, n: nat, i: nat)
    requires i < n
    ensures Bit(XorBits(a, b, n), i) == (if Bit(a, i) == Bit(b, i) then 0 else 1)
    decreases n
  {
    var x := XorBits(a / 2, b / 2, n - 1);
    var low := if a % 2 != b % 2 then 1 else 0;
    assert XorBits(a, b, n) == low + 2 * x;
    assert (low + 2 * x) / 2 == x && (low + 2 * x) % 2 == low;
    if i > 0 { XorBitsAt(a / 2, b / 2, n - 1, i - 1); }
  }

  /** Each bit of the result is set exactly when the two bits differ. */
  lemma XorAt(a: byte, b: byte, i: nat)
    requires i < 8
    ensures Bit(Xor(a, b), i) == (if Bit(a, i) == Bit(b, i) then 0 else 1)
  {
    XorBitsAt(a, b, 8, i);
  }

  lemma XorTwice(a: byte, b: byte)
    ensures Xor(Xor(a, b), b) == a
  {
    Pow2Of8();
    XorInvolution(a, b, 8);
  }

  /** The key is repeated along the payload. Masking and unmasking are the same operation. */
  function Masked(data: seq<byte>, key: seq<byte>): (r: seq<byte>)
    requires |key| == 4
    ensures |r| == |data|
  {
    seq(|data|, i requires 0 <= i < |data| => Xor(data[i], key[i % 4]))
  }

  lemma MaskedTwice(data: seq<byte>, key: seq<byte>)
    requires |key| == 4
    ensures Masked(Masked(data, key), key) == data
  {
    forall i | 0 <= i < |data| ensures Masked(Masked(data, key), key)[i] == data[i] { XorTwice(data[i], key[i % 4]); }
  }

  // ---------------------------------------------------------------- extended lengths

  function Pow256(k: nat): (p: nat)
    ensures p >= 1
  {
    if k == 0 then 1 else 256 * Pow256(k - 1)
  }

  function BigEndian(n: nat, k: nat): (r: seq<byte>)
    ensures |r| == k
  {
    if k == 0 then [] else BigEndian(n / 256, k - 1) + [n % 256]
  }

  function FromBigEndian(s: seq<byte>): nat {
    if s == [] then 0 else FromBigEndian(s[..|s| - 1]) * 256 + s[|s| - 1]
  }

  lemma {:induction false} BigEndianRoundTrip(n: nat, k: nat)
    requires n < Pow256(k)
    ensures FromBigEndian(BigEndian(n, k)) == n
  {
    hide *;
    if k > 0 {
      DropByte(n, k);
      BigEndianRoundTrip(n / 256, k - 1);
      BigEndianSnoc(n, k);
      FromSnoc(BigEndian(n / 256, k - 1), n % 256);
    } else {
      NoBytes(n);
    }
  }

  lemma NoBytes(n: nat)
    ensures FromBigEndian(BigEndian(n, 0)) == 0 && (n < Pow256(0) ==> n == 0)
  {
  }

  lemma DropByte(n: nat, k: nat)
    requires k > 0 && n < Pow256(k)
    ensures n / 256 < Pow256(k - 1) && n == n / 256 * 256 + n % 256
  {
    var p := Pow256(k - 1);
    assert n < 256 * p;
  }

  lemma BigEndianSnoc(n: nat, k: nat)
    requires k > 0
    ensures BigEndian(n, k) == BigEndian(n / 256, k - 1) + [n % 256]
  {
  }

  lemma FromSnoc(s: seq<byte>, b: byte)
    ensures FromBigEndian(s + [b]) == FromBigEndian(s) * 256 + b
  {
    assert (s + [b])[..|s|] == s;
  }

  lemma {:induction false} BigEndianFirst(n: nat, k: nat)
    requires k > 0 && n < 128 * Pow256(k - 1)
    ensures BigEndian(n, k)[0] < 128
  {
    if k == 1 {
      assert n < 128;
    } else {
      assert n / 256 < 128 * Pow256(k - 2);
      BigEndianFirst(n / 256, k - 1);
      assert BigEndian(n, k)[0] == BigEndian(n / 256, k - 1)[0];
    }
  }

  lemma {:induction false} BigEndianAt(n: nat, k: nat, i: nat)
    requires i < k
    ensures BigEndian(n, k)[i] == n / Pow256(k - 1 - i) % 256
    decreases k
  {
    if i < k - 1 {
      BigEndianAt(n / 256, k - 1, i);
      DivDiv(n, Pow256(k - 2 - i));
    }
  }

  lemma DivDiv(n: nat, p: nat)
    requires p >= 1
    ensures n / 256 / p == n / (256 * p)
  {
    var q := n / 256 / p;
    var r := n / 256 % p;
    assert n == (q * p + r) * 256 + n % 256;
    assert q * p * 256 == q * (256 * p);
    var low := r * 256 + n % 256;
    assert low < 256 * p;
    DivUnique(n, 256 * p, q, low);
  }

  // ---------------------------------------------------------------- reading

  datatype Parse =
    | NeedMore
    | Bad(code: nat, reason: string)
    | Whole(fin: bool, opcode: Opcode, payload: seq<byte>, total: nat)

  datatype Length = LengthMore | LengthBad | Length(size: nat, header: nat)

  function ParseLength(input: seq<byte>): (r: Length)
    requires |input| >= 2
    ensures r.Length? ==> 2 <= r.header <= |input|
  {
    var short := input[1] % 128;
    if short == 126 then
      if |input| < 4 then LengthMore else Length(FromBigEndian(input[2..4]), 4)
    else if short == 127 then
      if |input| < 10 then LengthMore
      else if input[2] >= 128 then LengthBad
      else Length(FromBigEndian(input[2..10]), 10)
    else Length(short, 2)
  }

  /** The frame at the front of the input, decided as early as the bytes at hand allow. */
  function ParseFrame(input: seq<byte>, limit: nat): (r: Parse)
    ensures r.Whole? ==> 2 <= r.total <= |input| && |r.payload| <= limit
  {
    if |input| < 2 then NeedMore
    else
      var first, second := input[0], input[1];
      var opcode := OpcodeOf(first % 16);
      if first % 128 / 16 != 0 then Bad(1002, "RSV bits require an extension")
      else if opcode.None? then Bad(1002, "Unsupported opcode")
      else if second < 128 then Bad(1002, "Client frames must be masked")
      else
        match ParseLength(input)
        case LengthMore => NeedMore
        case LengthBad => Bad(1002, "Invalid 64-bit payload length")
        case Length(size, header) =>
          if size > limit then Bad(1009, "Message too large")
          else if IsControl(opcode.value) && (first < 128 || size > 125) then Bad(1002, "Invalid control frame")
          else
            var total := header + 4 + size;
            if |input| < total then NeedMore
            else Whole(first >= 128, opcode.value, Masked(input[header + 4..total], input[header..header + 4]), total)
  }

  /** More input never changes a verdict. */
  lemma ParseExtend(p: seq<byte>, q: seq<byte>, limit: nat)
    ensures !ParseFrame(p, limit).NeedMore? ==> ParseFrame(p + q, limit) == ParseFrame(p, limit)
  {
    hide OpcodeOf, ParseLength, Masked, IsControl;
    if |p| >= 2 && !ParseFrame(p, limit).NeedMore? {
      assert (p + q)[0] == p[0] && (p + q)[1] == p[1];
      if OpcodeOf(p[0] % 16).Some? && p[1] >= 128 {
        LengthExtend(p, q);
        var length := ParseLength(p);
        if length.Length? && length.header + 4 + length.size <= |p| {
          var header, total := length.header, length.header + 4 + length.size;
          FrontSlice(p, q, header + 4, total);
          FrontSlice(p, q, header, header + 4);
        }
      }
    }
  }

  lemma LengthExtend(p: seq<byte>, q: seq<byte>)
    requires |p| >= 2
    ensures !ParseLength(p).LengthMore? ==> ParseLength(p + q) == ParseLength(p)
  {
    if |p| >= 4 { FrontSlice(p, q, 2, 4); }
    if |p| >= 10 { FrontSlice(p, q, 2, 10); }
  }

  // ---------------------------------------------------------------- writing

  const LENGTH_LIMIT := 0x8000_0000_0000_0000

  function HeaderSize(size: nat): nat { if size <= 125 then 2 else if size <= 0xFFFF then 4 else 10 }

  /** The length field: the second byte, without a mask bit, and its extension. */
  function LengthField(size: nat): (r: seq<byte>)
    ensures |r| == HeaderSize(size) - 1 && r[0] < 128
  {
    if size <= 125 then [size]
    else if size <= 0xFFFF then [126] + BigEndian(size, 2)
    else [127] + BigEndian(size, 8)
  }

  /** An unmasked, final frame, as the server writes it. */
  function Encode(op: Opcode, payload: seq<byte>): (r: seq<byte>)
    ensures |r| == HeaderSize(|payload|) + |payload|
  {
    [128 + OpcodeValue(op)] + LengthField(|payload|) + payload
  }

  /** How long the header of a frame is, by its second byte. */
  function HeaderLength(second: byte): nat {
    var code := second % 128;
    if code <= 125 then 2 else if code == 126 then 4 else 10
  }

  predicate HasHeader(frame: seq<byte>) { |frame| >= 2 && |frame| >= HeaderLength(frame[1]) }

  /**
   What a client does to the bytes of a frame: set bit 7 of byte 1, insert the key behind the header, mask the rest.
   */
  function ClientMask(frame: seq<byte>, key: seq<byte>): seq<byte>
    requires |key| == 4 && HasHeader(frame)
  {
    var header := HeaderLength(frame[1]);
    [frame[0]] + [128 + frame[1] % 128] + frame[2..header] + key + Masked(frame[header..], key)
  }

  /** A frame of the writer as a fragment: bit 7 of byte 0 is cleared unless the frame is the final one. */
  function Fragment(frame: seq<byte>, fin: bool): seq<byte>
    requires |frame| > 0 && frame[0] >= 128
  {
    if fin then frame else [frame[0] - 128] + frame[1..]
  }

  function FirstByte(fin: bool, op: Opcode): byte { (if fin then 128 else 0) + OpcodeValue(op) }

  /** The masked frame, told from final bit, opcode and payload. */
  function ClientFrame(fin: bool, op: Opcode, payload: seq<byte>, key: seq<byte>): seq<byte>
    requires |key| == 4
  {
    var field := LengthField(|payload|);
    [FirstByte(fin, op)] + [128 + field[0]] + field[1..] + key + Masked(payload, key)
  }

  /** Masking the bytes the writer emits, as a fragment or as they are. */
  lemma MaskedEncoding(fin: bool, op: Opcode, payload: seq<byte>, key: seq<byte>)
    requires |key| == 4
    ensures var frame := Fragment(Encode(op, payload), fin);
            HasHeader(frame) && ClientMask(frame, key) == ClientFrame(fin, op, payload, key)
  {
    hide OpcodeValue, Masked, LengthField, HeaderLength;
    var frame, field := Fragment(Encode(op, payload), fin), LengthField(|payload|);
    var header := HeaderSize(|payload|);
    assert frame == [FirstByte(fin, op)] + field + payload;
    assert frame[1] == field[0] && HeaderLength(frame[1]) == header by { FieldHeader(|payload|); }
    assert frame[2..header] == field[1..];
    assert frame[header..] == payload;
  }

  lemma FieldHeader(size: nat)
    ensures HeaderLength(LengthField(size)[0]) == HeaderSize(size)
  {
  }

  lemma Pow256Values()
    ensures Pow256(2) == 0x1_0000 && Pow256(7) == 0x100_0000_0000_0000 && Pow256(8) == 0x1_0000_0000_0000_0000
  {
    assert Pow256(2) == 0x1_0000;
    assert Pow256(4) == 0x1_0000 * Pow256(2);
    assert Pow256(6) == 0x1_0000 * Pow256(4);
    assert Pow256(7) == 256 * Pow256(6);
    assert Pow256(8) == 256 * Pow256(7);
  }

  /** The length field is read back, in all three forms. */
  lemma LengthRoundTrip(first: byte, size: nat, rest: seq<byte>)
    requires size < LENGTH_LIMIT
    ensures var field := LengthField(size);
            ParseLength([first] + [128 + field[0]] + field[1..] + rest) == Length(size, HeaderSize(size))
  {
    var field := LengthField(size);
    var input := [first] + [128 + field[0]] + field[1..] + rest;
    assert input[1] == 128 + field[0] && input[1] % 128 == field[0];
    if size > 0xFFFF {
      var bytes := BigEndian(size, 8);
      Pow256Values();
      BigEndianRoundTrip(size, 8);
      BigEndianFirst(size, 8);
      assert field[1..] == bytes && input[2..10] == bytes && input[2] == bytes[0];
    } else if size > 125 {
      Pow256Values();
      BigEndianRoundTrip(size, 2);
      assert field[1..] == BigEndian(size, 2) && input[2..4] == field[1..];
    }
  }

  lemma OpcodeRoundTrip(fin: bool, op: Opcode)
    ensures var first := FirstByte(fin, op);
            OpcodeOf(first % 16) == Some(op) && first % 128 / 16 == 0 && (first >= 128) == fin
  {
  }

  lemma ClientFrameRoundTrip(
    fin: bool, op: Opcode, payload: seq<byte>, key: seq<byte>, rest: seq<byte>, limit: nat)
    requires |key| == 4 && |payload| <= limit && |payload| < LENGTH_LIMIT
    requires IsControl(op) ==> fin && |payload| <= 125
    ensures var frame := ClientFrame(fin, op, payload, key);
            ParseFrame(frame + rest, limit) == Whole(fin, op, payload, |frame|)
  {
    hide FirstByte, OpcodeOf, LengthField, ParseLength, Masked;
    var size, field := |payload|, LengthField(|payload|);
    var tail := key + Masked(payload, key) + rest;
    var frame := ClientFrame(fin, op, payload, key);
    var head := [FirstByte(fin, op)] + [128 + field[0]] + field[1..];
    var input := head + tail;
    assert frame + rest == input;
    OpcodeRoundTrip(fin, op);
    LengthRoundTrip(FirstByte(fin, op), size, tail);
    assert |head| == HeaderSize(size);
    assert input == head + key + (Masked(payload, key) + rest);
    MiddleSlice(head, key, Masked(payload, key) + rest);
    assert input == (head + key) + Masked(payload, key) + rest;
    MiddleSlice(head + key, Masked(payload, key), rest);
    assert input[0] == FirstByte(fin, op) && input[1] == 128 + field[0];
    MaskedTwice(payload, key);
  }

  /**
   For every payload size, every key and both values of the final bit: the writer's bytes, with that bit, masked and
   followed by anything, are read back as what the writer was given. Only a control frame has to be final and short.
   */
  lemma FrameRoundTrip(fin: bool, op: Opcode, payload: seq<byte>, key: seq<byte>, rest: seq<byte>, limit: nat)
    requires |key| == 4 && |payload| <= limit && |payload| < LENGTH_LIMIT
    requires IsControl(op) ==> fin && |payload| <= 125
    ensures HasHeader(Fragment(Encode(op, payload), fin))
    ensures var masked := ClientMask(Fragment(Encode(op, payload), fin), key);
            ParseFrame(masked + rest, limit) == Whole(fin, op, payload, |masked|)
  {
    hide Fragment, ClientMask, HasHeader, ClientFrame, ParseFrame;
    MaskedEncoding(fin, op, payload, key);
    ClientFrameRoundTrip(fin, op, payload, key, rest, limit);
  }

  /** The writer's bytes one by one: opcode values, the three length forms in network order, the payload as it is. */
  lemma WrittenBytes(op: Opcode, payload: seq<byte>)
    ensures var frame, size := Encode(op, payload), |payload|;
            && frame[0] == (match op
                            case Continuation => 0x80
                            case Text => 0x81
                            case Binary => 0x82
                            case Close => 0x88
                            case Ping => 0x89
                            case Pong => 0x8A)
            && (size <= 125 ==> frame[1] == size && frame[2..] == payload)
            && (125 < size <= 0xFFFF ==>
                  frame[1] == 126 && frame[2] == size / 256 && frame[3] == size % 256 && frame[4..] == payload)
            && (size > 0xFFFF ==>
                  && frame[1] == 127 && frame[10..] == payload
                  && forall i :: 0 <= i < 8 ==> frame[2..10][i] == size / Pow256(7 - i) % 256)
  {
    var frame, size := Encode(op, payload), |payload|;
    assert frame[HeaderSize(size)..] == payload;
    if 125 < size <= 0xFFFF {
      BigEndianAt(size, 2, 0);
      BigEndianAt(size, 2, 1);
      assert Pow256(1) == 256 * Pow256(0) == 256;
    } else if size > 0xFFFF {
      forall i | 0 <= i < 8 ensures frame[2..10][i] == size / Pow256(7 - i) % 256 { BigEndianAt(size, 8, i); }
    }
  }

  // ---------------------------------------------------------------- what is accepted and what is refused

  ghost predicate HasLength(input: seq<byte>, header: nat, size: nat)
    requires |input| >= 2
  {
    var code := input[1] % 128;
    || (code <= 125 && header == 2 && size == code)
    || (code == 126 && header == 4 <= |input| && size == input[2] as int * 256 + input[3] as int)
    || (code == 127 && header == 10 <= |input| && input[2] < 128 && size == FromBigEndian(input[2..10]))
  }

  lemma LengthIs(input: seq<byte>)
    requires |input| >= 2
    ensures forall header, size :: HasLength(input, header, size) <==> ParseLength(input) == Length(size, header)
    ensures ParseLength(input).LengthBad? <==> |input| >= 10 && input[1] % 128 == 127 && input[2] >= 128
  {
    if |input| >= 4 {
      var two := input[2..4];
      assert two[..1][..0] == [] && two[..1] == [input[2]];
      assert FromBigEndian(two[..1]) == input[2];
      assert FromBigEndian(two) == input[2] as int * 256 + input[3] as int;
    }
  }

  /**
   A frame is read exactly when the input starts with one, told from the bits of its bytes: no reserved bit, a known
   opcode, the mask bit, a length in one of the three forms within the limit, and, for control opcodes, the final bit
   and at most 125 bytes. The payload is the masked bytes behind the key, each combined with the key byte of its turn.
   */
  lemma AcceptedExactly(input: seq<byte>, limit: nat, fin: bool, op: Opcode, payload: seq<byte>, total: nat)
    ensures ParseFrame(input, limit) == Whole(fin, op, payload, total) <==>
            IsFrame(input, limit, fin, op, payload, total)
  {
    hide ParseFrame, IsFrame;
    if IsFrame(input, limit, fin, op, payload, total) { FrameIsAccepted(input, limit, fin, op, payload, total); }
    if ParseFrame(input, limit) == Whole(fin, op, payload, total) { AcceptedIsFrame(input, limit); }
  }

  lemma FrameIsAccepted(input: seq<byte>, limit: nat, fin: bool, op: Opcode, payload: seq<byte>, total: nat)
    requires IsFrame(input, limit, fin, op, payload, total)
    ensures ParseFrame(input, limit) == Whole(fin, op, payload, total)
  {
    hide Masked, FromBigEndian, ParseLength, HasLength, FirstByte, OpcodeOf, Xor;
    LengthIs(input);
    FirstByteBits(input[0], fin, op);
    UnmaskedIs(input, total - 4 - |payload|, total, payload);
  }

  lemma AcceptedIsFrame(input: seq<byte>, limit: nat)
    ensures var r := ParseFrame(input, limit);
            r.Whole? ==> IsFrame(input, limit, r.fin, r.opcode, r.payload, r.total)
  {
    hide Masked, FromBigEndian, ParseLength, HasLength, FirstByte, OpcodeOf, Xor;
    var r := ParseFrame(input, limit);
    if r.Whole? {
      LengthIs(input);
      FirstByteBits(input[0], r.fin, r.opcode);
      UnmaskedIs(input, r.total - 4 - |r.payload|, r.total, r.payload);
    }
  }

  ghost predicate IsFrame(input: seq<byte>, limit: nat, fin: bool, op: Opcode, payload: seq<byte>, total: nat) {
    var size := |payload|;
    var header := total - 4 - size;
    && size <= limit && 2 <= header && total <= |input|
    && input[0] == FirstByte(fin, op) && input[1] >= 128 && HasLength(input, header, size)
    && (op == Close || op == Ping || op == Pong ==> fin && size <= 125)
    && forall i :: 0 <= i < size ==> payload[i] == Xor(input[header + 4 + i], input[header + i % 4])
  }

  lemma UnmaskedIs(input: seq<byte>, header: nat, total: nat, payload: seq<byte>)
    requires header + 4 + |payload| == total <= |input|
    ensures payload == Masked(input[header + 4..total], input[header..header + 4]) <==>
            forall i :: 0 <= i < |payload| ==> payload[i] == Xor(input[header + 4 + i], input[header + i % 4])
  {
    hide Xor;
    var body, key := input[header + 4..total], input[header..header + 4];
    assert forall i :: 0 <= i < |payload| ==> body[i] == input[header + 4 + i] && key[i % 4] == input[header + i % 4];
  }

  lemma FirstByteBits(first: byte, fin: bool, op: Opcode)
    ensures first == FirstByte(fin, op) <==>
            first % 128 / 16 == 0 && OpcodeOf(first % 16) == Some(op) && fin == (first >= 128)
  {
  }

  /** Every refusal with its status, in the order in which the reader looks. */
  lemma RefusedExactly(input: seq<byte>, limit: nat)
    ensures var r := ParseFrame(input, limit);
            && (r.Bad? ==> r.code == 1002 || r.code == 1009)
            && ((r.Bad? && r.code == 1002) <==>
                  |input| >= 2 &&
                  (|| BadStart(input[0], input[1])
                   || (|input| >= 10 && input[1] % 128 == 127 && input[2] >= 128)
                   || exists header: nat, size: nat ::
                        HasLength(input, header, size) && size <= limit && input[0] % 16 >= 8 &&
                        (input[0] < 128 || size > 125)))
            && ((r.Bad? && r.code == 1009) <==>
                  |input| >= 2 && !BadStart(input[0], input[1]) &&
                  exists header: nat, size: nat :: HasLength(input, header, size) && size > limit)
  {
    hide FromBigEndian, HasLength, ParseLength, Masked;
    if |input| >= 2 {
      LengthIs(input);
      var length := ParseLength(input);
      if length.Length? {
        assert HasLength(input, length.header, length.size);
      }
    }
  }

  /** A reserved bit, an opcode outside section 5.2 of RFC 6455, or no mask. */
  predicate BadStart(first: byte, second: byte) {
    || 16 <= first % 128
    || 3 <= first % 16 <= 7 || 11 <= first % 16
    || second < 128
  }
}
