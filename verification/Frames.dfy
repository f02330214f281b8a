/** WebSocket framing of the Chrome DevTools client (RFC 6455 sections 5.2, 5.3 and 5.5). */
module Frames {
  import opened Basics

  type Byte = b: int | 0 <= b < 256

  function Power2(n: nat): nat {
    if n == 0 then 1 else 2 * Power2(n - 1)
  }

  /** Exclusive or of the lowest n bits. */
  function XorBits(a: nat, b: nat, n: nat): (r: nat)
    ensures r < Power2(n)
  {
    if n == 0 then 0 else 2 * XorBits(a / 2, b / 2, n - 1) + if a % 2 == b % 2 then 0 else 1
  }

  lemma {:induction false} XorBitsInvolution(a: nat, b: nat, n: nat)
    requires a < Power2(n)
    ensures XorBits(XorBits(a, b, n), b, n) == a
  {
    if n == 0 {
    } else {
      XorBitsInvolution(a / 2, b / 2, n - 1);
      var x := XorBits(a, b, n);
      assert x / 2 == XorBits(a / 2, b / 2, n - 1);
    }
  }

  /** Bit i of a number, the lowest being bit 0. */
  function BitAt(a: nat, i: nat): nat {
    if i == 0 then a % 2 else BitAt(a / 2, i - 1)
  }

  /** Each bit of the exclusive or is the sum modulo two of the bits above it. */
  lemma {:induction false} XorBitsAt(a: nat, b: nat, n: nat, i: nat)
    requires i < n
    ensures BitAt(XorBits(a, b, n), i) == (BitAt(a, i) + BitAt(b, i)) % 2
  {
    var x := XorBits(a, b, n);
    assert x / 2 == XorBits(a / 2, b / 2, n - 1);
    if i == 0 {
    } else {
      XorBitsAt(a / 2, b / 2, n - 1, i - 1);
    }
  }

  /** The byte a ^ b. */
  function Xor(a: Byte, b: Byte): Byte {
    EightBits();
    XorBits(a, b, 8)
  }

  lemma EightBits()
    ensures Power2(8) == 256
  {
    assert Power2(4) == 16;
  }

  lemma XorInvolution(a: Byte, b: Byte)
    ensures Xor(Xor(a, b), b) == a
  {
    EightBits();
    XorBitsInvolution(a, b, 8);
  }

  /** bytes(item ^ mask[index % 4] for index, item in enumerate(payload)). */
  function Masked(payload: seq<Byte>, key: seq<Byte>): (r: seq<Byte>)
    requires |key| == 4
    ensures |r| == |payload|
  {
    seq(|payload|, i requires 0 <= i < |payload| => Xor(payload[i], key[i % 4]))
  }

  lemma MaskingTwice(payload: seq<Byte>, key: seq<Byte>)
    requires |key| == 4
    ensures Masked(Masked(payload, key), key) == payload
  {
    forall i | 0 <= i < |payload| ensures Masked(Masked(payload, key), key)[i] == payload[i] {
      XorInvolution(payload[i], key[i % 4]);
    }
  }

  /** Main fact, masking: bit i of the k-th byte is the payload's bit, flipped iff bit i of the key's byte k % 4 is
      set. */
  lemma MaskedBits(payload: seq<Byte>, key: seq<Byte>, k: nat, i: nat)
    requires |key| == 4 && k < |payload| && i < 8
    ensures BitAt(Masked(payload, key)[k], i) == (BitAt(payload[k], i) + BitAt(key[k % 4], i)) % 2
  {
    XorBitsAt(payload[k], key[k % 4], 8, i);
  }

  function Power256(n: nat): nat {
    if n == 0 then 1 else 256 * Power256(n - 1)
  }

  /** struct.pack("!H") for n == 2 and struct.pack("!Q") for n == 8. */
  function BigEndian(value: nat, n: nat): (bytes: seq<Byte>)
    ensures |bytes| == n
  {
    if n == 0 then [] else BigEndian(value / 256, n - 1) + [value % 256]
  }

  /** struct.unpack of the same formats. */
  function Value(bytes: seq<Byte>): nat {
    if bytes == [] then 0 else 256 * Value(bytes[..|bytes| - 1]) + bytes[|bytes| - 1]
  }

  lemma {:induction false} BigEndianRoundTrip(value: nat, n: nat)
    requires value < Power256(n)
    ensures Value(BigEndian(value, n)) == value
  {
    if n == 0 {
    } else {
      BigEndianRoundTrip(value / 256, n - 1);
      assert BigEndian(value, n)[..n - 1] == BigEndian(value / 256, n - 1);
    }
  }

  lemma QuotientIs(a: nat, q: nat, d: nat, r: nat)
    requires r < d && a == q * d + r
    ensures a / d == q
  {
    var x := a / d - q;
    assert a == (a / d) * d + a % d;
    assert x * d == r - a % d;
    assert (x >= 1 ==> x * d >= d) && (x <= -1 ==> x * d + d <= 0);
  }

  lemma DivideTwice(a: nat, d: nat)
    requires 0 < d
    ensures a / 256 / d == a / (256 * d)
  {
    var b := a / 256;
    var q, r := b / d, b % d;
    assert b == q * d + r;
    assert a == q * (256 * d) + (256 * r + a % 256);
    QuotientIs(a, q, 256 * d, 256 * r + a % 256);
  }

  lemma {:induction false} PowerPositive(n: nat)
    ensures 0 < Power256(n)
  {
    if n == 0 {
    } else {
      PowerPositive(n - 1);
    }
  }

  /** The most significant byte comes first. */
  lemma {:induction false} BigEndianAt(value: nat, n: nat, k: nat)
    requires k < n
    ensures Power256(n - 1 - k) > 0 && BigEndian(value, n)[k] == value / Power256(n - 1 - k) % 256
  {
    PowerPositive(n - 1 - k);
    if k == n - 1 {
    } else {
      BigEndianAt(value / 256, n - 1, k);
      PowerPositive(n - 2 - k);
      DivideTwice(value, Power256(n - 2 - k));
    }
  }

  /** Unpacking is exact on every byte string. */
  lemma {:induction false} BigEndianOfValue(bytes: seq<Byte>)
    ensures BigEndian(Value(bytes), |bytes|) == bytes && Value(bytes) < Power256(|bytes|)
  {
    if bytes == [] {
    } else {
      BigEndianOfValue(bytes[..|bytes| - 1]);
      assert bytes == bytes[..|bytes| - 1] + [bytes[|bytes| - 1]];
    }
  }

  /** struct.pack's limits. */
  lemma PackLimits()
    ensures Power256(2) == 65536 && Power256(8) == 18446744073709551616
  {
    assert Power256(4) == 4294967296;
  }

  // Frames.

  /** `flags` is the high half of the first byte: FIN and the reserved bits. */
  datatype Frame = Frame(flags: nat, opcode: nat, key: Option<seq<Byte>>, payload: seq<Byte>) {
    predicate Valid() {
      && flags < 16 && opcode < 16
      && (key.Some? ==> |key.value| == 4)
      && |payload| < Power256(8)
    }
  }

  /** The number of length bytes that follow the second byte. */
  function ExtraLength(size: nat): nat {
    if size < 126 then 0 else if size < 65536 then 2 else 8
  }

  /** A length form with that many extra bytes can hold the size; the shortest form always can. */
  predicate FitsForm(extra: nat, size: nat) {
    (extra == 0 && size < 126) || (extra == 2 && size < 65536) || (extra == 8 && size < Power256(8))
  }

  /** The low seven bits of the second byte. */
  function LengthCode(size: nat, extra: nat): (code: nat)
    requires FitsForm(extra, size)
    ensures code < 128
  {
    if extra == 0 then size else if extra == 2 then 126 else 127
  }

  function MaskBit(f: Frame): nat {
    if f.key.Some? then 128 else 0
  }

  function Body(f: Frame): seq<Byte>
    requires f.Valid()
  {
    if f.key.Some? then f.key.value + Masked(f.payload, f.key.value) else f.payload
  }

  /** The frame on the wire, in any length form. */
  function EncodeAs(f: Frame, extra: nat): seq<Byte>
    requires f.Valid() && FitsForm(extra, |f.payload|)
  {
    [16 * f.flags + f.opcode, MaskBit(f) + LengthCode(|f.payload|, extra)] + BigEndian(|f.payload|, extra) + Body(f)
  }

  /** The frame with the shortest length form. */
  function Encode(f: Frame): seq<Byte>
    requires f.Valid()
  {
    EncodeAs(f, ExtraLength(|f.payload|))
  }

  datatype Parsed = Complete(opcode: nat, payload: seq<Byte>, rest: seq<Byte>) | Truncated

  function ExtraBytes(second: Byte): nat {
    if second % 128 == 126 then 2 else if second % 128 == 127 then 8 else 0
  }

  function KeyBytes(second: Byte): nat {
    if second >= 128 then 4 else 0
  }

  /** The key, if any, and the payload. */
  function ParseBody(opcode: nat, second: Byte, size: nat, stream: seq<Byte>): Parsed {
    var key := KeyBytes(second);
    if |stream| < key + size then Truncated
    else
      var body := stream[key..key + size];
      Complete(opcode, if key == 0 then body else Masked(body, stream[..4]), stream[key + size..])
  }

  /** The extra length bytes, if any, and the rest. */
  function ParseLength(opcode: nat, second: Byte, stream: seq<Byte>): Parsed {
    var extra := ExtraBytes(second);
    if |stream| < extra then Truncated
    else ParseBody(opcode, second, if extra == 0 then second % 128 else Value(stream[..extra]), stream[extra..])
  }

  /** One frame as `_receive` reads it: first & 0x0F, second & 0x7F and second & 0x80. */
  function Parse(stream: seq<Byte>): Parsed {
    if |stream| < 2 then Truncated else ParseLength(stream[0] % 16, stream[1], stream[2..])
  }

  lemma ParseShrinks(stream: seq<Byte>)
    ensures Parse(stream).Complete? ==> |Parse(stream).rest| + 2 <= |stream|
  {
  }

  lemma SecondByteDecodes(f: Frame, extra: nat)
    requires f.Valid() && FitsForm(extra, |f.payload|)
    ensures var second := MaskBit(f) + LengthCode(|f.payload|, extra);
      && ExtraBytes(second) == extra
      && KeyBytes(second) == (if f.key.Some? then 4 else 0)
      && (extra == 0 ==> second % 128 == |f.payload|)
  {
  }

  lemma BodyRoundTrip(f: Frame, second: Byte, rest: seq<Byte>)
    requires f.Valid() && KeyBytes(second) == if f.key.Some? then 4 else 0
    ensures ParseBody(f.opcode, second, |f.payload|, Body(f) + rest) == Complete(f.opcode, f.payload, rest)
  {
    var stream := Body(f) + rest;
    if f.key.Some? {
      assert stream[..4] == f.key.value;
      assert stream[4..4 + |f.payload|] == Masked(f.payload, f.key.value);
      MaskingTwice(f.payload, f.key.value);
    } else {
      assert stream[0..|f.payload|] == f.payload;
    }
    assert stream[KeyBytes(second) + |f.payload|..] == rest;
  }

  /** With a second byte and length bytes that say the payload's size, the rest of a frame is read back. */
  lemma LengthRoundTrip(f: Frame, second: Byte, length: seq<Byte>, stream: seq<Byte>, rest: seq<Byte>)
    requires f.Valid() && stream == length + (Body(f) + rest) && |length| == ExtraBytes(second)
    requires KeyBytes(second) == if f.key.Some? then 4 else 0
    requires |f.payload| == if |length| == 0 then second % 128 else Value(length)
    ensures ParseLength(f.opcode, second, stream) == Complete(f.opcode, f.payload, rest)
  {
    assert stream[..|length|] == length && stream[|length|..] == Body(f) + rest;
    BodyRoundTrip(f, second, rest);
  }

  lemma LengthBytesFit(size: nat, extra: nat)
    requires FitsForm(extra, size)
    ensures extra != 0 ==> Value(BigEndian(size, extra)) == size
  {
    PackLimits();
    if extra != 0 {
      BigEndianRoundTrip(size, extra);
    }
  }

  lemma HighHalfDrops(flags: nat, opcode: nat)
    requires flags < 16 && opcode < 16
    ensures (16 * flags + opcode) % 16 == opcode
  {
  }

  lemma EncodedHead(f: Frame, extra: nat, rest: seq<Byte>, first: Byte, second: Byte)
    requires f.Valid() && FitsForm(extra, |f.payload|)
    requires first == 16 * f.flags + f.opcode && second == MaskBit(f) + LengthCode(|f.payload|, extra)
    ensures var stream := EncodeAs(f, extra) + rest;
      && 2 <= |stream| && stream[0] == first && stream[1] == second
      && stream[2..] == BigEndian(|f.payload|, extra) + (Body(f) + rest)
  {
    TwoBytesFirst(first, second, BigEndian(|f.payload|, extra), Body(f), rest);
  }

  lemma TwoBytesFirst(first: Byte, second: Byte, length: seq<Byte>, body: seq<Byte>, rest: seq<Byte>)
    ensures var stream := [first, second] + length + body + rest;
      2 <= |stream| && stream[0] == first && stream[1] == second && stream[2..] == length + (body + rest)
  {
  }

  /** Main fact: parsing a frame in any length form that holds its size gives its opcode and payload and leaves
      exactly what follows. */
  lemma ParseInvertsAnyForm(f: Frame, extra: nat, rest: seq<Byte>)
    requires f.Valid() && FitsForm(extra, |f.payload|)
    ensures Parse(EncodeAs(f, extra) + rest) == Complete(f.opcode, f.payload, rest)
  {
    var first, second := 16 * f.flags + f.opcode, MaskBit(f) + LengthCode(|f.payload|, extra);
    var length := BigEndian(|f.payload|, extra);
    HighHalfDrops(f.flags, f.opcode);
    EncodedHead(f, extra, rest, first, second);
    SecondByteDecodes(f, extra);
    LengthBytesFit(|f.payload|, extra);
    LengthRoundTrip(f, second, length, length + (Body(f) + rest), rest);
  }

  /** In particular for the shortest form. */
  lemma ParseInvertsEncode(f: Frame, rest: seq<Byte>)
    requires f.Valid()
    ensures Parse(Encode(f) + rest) == Complete(f.opcode, f.payload, rest)
  {
    ParseInvertsAnyForm(f, ExtraLength(|f.payload|), rest);
  }

  /** A frame that has been read is read alike when more follows. */
  lemma ParseExtends(stream: seq<Byte>, more: seq<Byte>)
    requires Parse(stream).Complete?
    ensures var p := Parse(stream); Parse(stream + more) == Complete(p.opcode, p.payload, p.rest + more)
  {
    var longer := stream + more;
    assert longer[2..] == stream[2..] + more;
    LengthExtends(stream[0] % 16, stream[1], stream[2..], more);
  }

  lemma LengthExtends(opcode: nat, second: Byte, stream: seq<Byte>, more: seq<Byte>)
    requires ParseLength(opcode, second, stream).Complete?
    ensures var p := ParseLength(opcode, second, stream);
      ParseLength(opcode, second, stream + more) == Complete(p.opcode, p.payload, p.rest + more)
  {
    var extra := ExtraBytes(second);
    assert (stream + more)[..extra] == stream[..extra] && (stream + more)[extra..] == stream[extra..] + more;
    BodyExtends(opcode, second, if extra == 0 then second % 128 else Value(stream[..extra]), stream[extra..], more);
  }

  lemma BodyExtends(opcode: nat, second: Byte, size: nat, stream: seq<Byte>, more: seq<Byte>)
    requires ParseBody(opcode, second, size, stream).Complete?
    ensures var p := ParseBody(opcode, second, size, stream);
      ParseBody(opcode, second, size, stream + more) == Complete(p.opcode, p.payload, p.rest + more)
  {
    var key := KeyBytes(second);
    assert (stream + more)[key..key + size] == stream[key..key + size];
    assert (stream + more)[key + size..] == stream[key + size..] + more;
    assert key == 4 ==> (stream + more)[..4] == stream[..4];
  }

  /** A frame cut short is no frame: the stream ends inside it. */
  lemma CutFrameIsTruncated(f: Frame, k: nat)
    requires f.Valid() && k < |Encode(f)|
    ensures Parse(Encode(f)[..k]) == Truncated
  {
    var cut, more := Encode(f)[..k], Encode(f)[k..];
    assert cut + more == Encode(f) == Encode(f) + [];
    ParseInvertsEncode(f, []);
    if Parse(cut).Complete? {
      ParseExtends(cut, more);
    }
  }

  /** No encoded frame is a proper prefix of another with different contents. */
  lemma EncodingsArePrefixFree(f: Frame, g: Frame, rest: seq<Byte>)
    requires f.Valid() && g.Valid() && Encode(f) + rest == Encode(g)
    ensures f.opcode == g.opcode && f.payload == g.payload && rest == []
  {
    ParseInvertsEncode(f, rest);
    ParseInvertsEncode(g, []);
    assert Encode(g) + [] == Encode(g);
  }
}
