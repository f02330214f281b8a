/** The socket reader, `_send` and `_receive` of the Chrome DevTools client. */
module WebSocket {
  import opened Basics
  import opened Frames

  /** A connected socket: the bytes the peer will still deliver before it closes, and the bytes sent. */
  class Socket {
    var incoming: seq<Byte>
    var sent: seq<Byte>

    constructor (incoming: seq<Byte>)
      ensures this.incoming == incoming && sent == []
    {
      this.incoming := incoming;
      sent := [];
    }

    /** recv: any non-empty block of at most `limit` bytes, or nothing once the peer has closed. */
    method Recv(limit: nat) returns (block: seq<Byte>)
      modifies this`incoming
      ensures block + incoming == old(incoming) && |block| <= limit
      ensures 0 < limit && old(incoming) != [] ==> block != []
    {
      if limit == 0 || incoming == [] {
        return [];
      }
      var k: nat :| 1 <= k <= limit && k <= |incoming|;
      block := incoming[..k];
      incoming := incoming[k..];
    }

    method SendAll(bytes: seq<Byte>)
      modifies this`sent
      ensures sent == old(sent) + bytes
    {
      sent := sent + bytes;
    }
  }

  /** `_recv_exact`: however recv splits the stream, the first `size` bytes, or None at end of stream. */
  method RecvExact(connection: Socket, size: nat) returns (result: Option<seq<Byte>>)
    modifies connection`incoming
    ensures size <= |old(connection.incoming)| ==>
      result == Some(old(connection.incoming)[..size]) && connection.incoming == old(connection.incoming)[size..]
    ensures |old(connection.incoming)| < size ==> result == None && connection.incoming == []
  {
    var bytes: seq<Byte> := [];
    while |bytes| < size
      invariant bytes + connection.incoming == old(connection.incoming) && |bytes| <= size
      decreases size - |bytes|
    {
      var block := connection.Recv(size - |bytes|);
      if |block| == 0 {
        return None;
      }
      bytes := bytes + block;
    }
    return Some(bytes);
  }

  /** `_send`, given the serialised payload and four random mask bytes; struct.pack rejects longer payloads. */
  method Send(connection: Socket, payload: seq<Byte>, mask: seq<Byte>) returns (ok: bool)
    requires |mask| == 4
    modifies connection`sent
    ensures ok == (|payload| < Power256(8))
    ensures ok ==> connection.sent == old(connection.sent) + Encode(TextFrame(payload, mask))
    ensures !ok ==> connection.sent == old(connection.sent)
  {
    var size := |payload|;
    var header: seq<Byte>;
    if size < 126 {
      header := [129, 128 + size];
    } else if size < 65536 {
      header := [129, 128 + 126] + BigEndian(size, 2);
    } else if size < Power256(8) {
      header := [129, 128 + 127] + BigEndian(size, 8);
    } else {
      return false;
    }
    if size < 126 {
      assert BigEndian(size, 0) == [];
    }
    EncodedText(payload, mask, header);
    connection.SendAll(header + mask + Masked(payload, mask));
    return true;
  }

  lemma EncodedText(payload: seq<Byte>, mask: seq<Byte>, header: seq<Byte>)
    requires |mask| == 4 && |payload| < Power256(8)
    requires header == [129, 128 + LengthCode(|payload|, ExtraLength(|payload|))]
                       + BigEndian(|payload|, ExtraLength(|payload|))
    ensures header + mask + Masked(payload, mask) == Encode(TextFrame(payload, mask))
  {
    var f := TextFrame(payload, mask);
    assert Body(f) == mask + Masked(payload, mask) && MaskBit(f) == 128;
    ConcatAssociative(header, mask, Masked(payload, mask));
  }

  /** A client text frame: FIN set, opcode 1, masked. */
  function TextFrame(payload: seq<Byte>, mask: seq<Byte>): (f: Frame)
    requires |mask| == 4 && |payload| < Power256(8)
    ensures f.Valid()
  {
    Frame(8, 1, Some(mask), payload)
  }

  // The bytes `_send` puts on the wire.

  /** How many bytes come before the mask. */
  function HeadLength(size: nat): nat {
    if size < 126 then 2 else if size < 65536 then 4 else 10
  }

  lemma TextFrameParts(payload: seq<Byte>, mask: seq<Byte>)
    requires |mask| == 4 && |payload| < Power256(8)
    ensures var size := |payload|;
      var extra := ExtraLength(size);
      Encode(TextFrame(payload, mask))
        == [129, 128 + LengthCode(size, extra)] + BigEndian(size, extra) + (mask + Masked(payload, mask))
  {
  }

  lemma WireParts(head: seq<Byte>, length: seq<Byte>, mask: seq<Byte>, masked: seq<Byte>, j: nat)
    requires |head| == 2 && |mask| == 4
    ensures var wire, n := head + length + (mask + masked), 2 + |length|;
      && |wire| == n + 4 + |masked| && wire[0] == head[0] && wire[1] == head[1]
      && (j < |length| ==> wire[2 + j] == length[j])
      && (j < 4 ==> wire[n + j] == mask[j])
      && (j < |masked| ==> wire[n + 4 + j] == masked[j])
  {
  }

  /** Main fact, the header: FIN and text, the mask bit with the shortest length form, the length most significant
      byte first, and the mask. */
  lemma HeaderOnTheWire(payload: seq<Byte>, mask: seq<Byte>, j: nat)
    requires |mask| == 4 && |payload| < Power256(8)
    ensures var size, wire := |payload|, Encode(TextFrame(payload, mask));
      && |wire| == HeadLength(size) + 4 + size && wire[0] == 129
      && (size < 126 ==> wire[1] == 128 + size)
      && (126 <= size < 65536 ==> wire[1] == 254 && wire[2] == size / 256 && wire[3] == size % 256)
      && (65536 <= size ==> wire[1] == 255)
      && (65536 <= size && j < 8 ==> Power256(7 - j) > 0 && wire[2 + j] == size / Power256(7 - j) % 256)
      && (j < 4 ==> wire[HeadLength(size) + j] == mask[j])
  {
    var size := |payload|;
    var code, length := LengthCode(size, ExtraLength(size)), BigEndian(size, ExtraLength(size));
    TextFrameParts(payload, mask);
    LengthBytes(size, code, length, j);
    HeaderParts(size, code, length, mask, Masked(payload, mask), Encode(TextFrame(payload, mask)), j);
  }

  /** The second byte and the extra length bytes. */
  predicate LengthIs(size: nat, code: nat, length: seq<Byte>, j: nat) {
    && (size < 126 ==> code == size && |length| == 0)
    && (126 <= size < 65536 ==> code == 126 && |length| == 2 && length[0] == size / 256 && length[1] == size % 256)
    && (65536 <= size ==> code == 127 && |length| == 8)
    && (65536 <= size && j < 8 ==> Power256(7 - j) > 0 && length[j] == size / Power256(7 - j) % 256)
  }

  lemma LengthBytes(size: nat, code: nat, length: seq<Byte>, j: nat)
    requires size < Power256(8)
    requires code == LengthCode(size, ExtraLength(size)) && length == BigEndian(size, ExtraLength(size))
    ensures LengthIs(size, code, length, j)
  {
    if 126 <= size < 65536 {
      TwoBytes(size);
    } else if 65536 <= size && j < 8 {
      BigEndianAt(size, 8, j);
    }
  }

  lemma HeaderParts(size: nat, code: nat, length: seq<Byte>, mask: seq<Byte>, masked: seq<Byte>, wire: seq<Byte>,
                    j: nat)
    requires |mask| == 4 && |masked| == size && code < 128 && LengthIs(size, code, length, j)
    requires wire == [129, 128 + code] + length + (mask + masked)
    ensures |wire| == HeadLength(size) + 4 + size && wire[0] == 129 && wire[1] == 128 + code
    ensures forall i :: 0 <= i < |length| ==> wire[2 + i] == length[i]
    ensures j < 4 ==> wire[HeadLength(size) + j] == mask[j]
  {
    WireParts([129, 128 + code], length, mask, masked, j);
    forall i | 0 <= i < |length| ensures wire[2 + i] == length[i] {
      WireParts([129, 128 + code], length, mask, masked, i);
    }
  }

  lemma TwoBytes(size: nat)
    requires size < 65536
    ensures BigEndian(size, 2)[0] == size / 256 && BigEndian(size, 2)[1] == size % 256
  {
    assert BigEndian(size / 256, 1) == [size / 256] by {
      assert BigEndian(size / 256 / 256, 0) == [];
    }
  }

  /** Main fact, the payload: after the mask, each byte of it bit by bit, flipped where the mask byte has a one. */
  lemma PayloadOnTheWire(payload: seq<Byte>, mask: seq<Byte>, k: nat, i: nat)
    requires |mask| == 4 && |payload| < Power256(8) && k < |payload| && i < 8
    ensures var at, wire := HeadLength(|payload|) + 4 + k, Encode(TextFrame(payload, mask));
      at < |wire| && BitAt(wire[at], i) == (BitAt(payload[k], i) + BitAt(mask[k % 4], i)) % 2
  {
    var size := |payload|;
    var extra := ExtraLength(size);
    TextFrameParts(payload, mask);
    WireParts([129, 128 + LengthCode(size, extra)], BigEndian(size, extra), mask, Masked(payload, mask), k);
    MaskedBits(payload, mask, k, i);
  }

  // _receive

  /** What one `_receive` does to the stream: the payload it returns or why it raises, the bytes it leaves,
      and the pongs it sends on the way. */
  datatype Received =
    | Text(payload: seq<Byte>, rest: seq<Byte>, pongs: seq<Byte>)
    | Closed(rest: seq<Byte>, pongs: seq<Byte>)
    | PingTooLong(rest: seq<Byte>, pongs: seq<Byte>)
    | EndOfStream(rest: seq<Byte>, pongs: seq<Byte>)

  /** b"\x8a" + bytes([len(payload)]) + payload. */
  function Pong(payload: seq<Byte>): seq<Byte>
    requires |payload| < 256
  {
    [138, |payload|] + payload
  }

  function WithPongs(pongs: seq<Byte>, r: Received): (q: Received)
    ensures q.rest == r.rest && q.pongs == pongs + r.pongs
  {
    match r
    case Text(payload, rest, later) => Text(payload, rest, pongs + later)
    case Closed(rest, later) => Closed(rest, pongs + later)
    case PingTooLong(rest, later) => PingTooLong(rest, pongs + later)
    case EndOfStream(rest, later) => EndOfStream(rest, pongs + later)
  }

  /** The frames at which `_receive` returns or raises instead of reading on. */
  predicate Stops(frame: Parsed) {
    frame.Truncated? || frame.opcode == 8 || frame.opcode == 1 || (frame.opcode == 9 && 256 <= |frame.payload|)
  }

  function Stopped(frame: Parsed): Received
    requires Stops(frame)
  {
    if frame.Truncated? then EndOfStream([], [])
    else if frame.opcode == 8 then Closed(frame.rest, [])
    else if frame.opcode == 9 then PingTooLong(frame.rest, [])
    else Text(frame.payload, frame.rest, [])
  }

  /** What a passed frame makes the client send. */
  function PongFor(frame: Parsed): seq<Byte>
    requires !Stops(frame)
  {
    if frame.opcode == 9 then Pong(frame.payload) else []
  }

  function Receive(stream: seq<Byte>): (r: Received)
    ensures |r.rest| <= |stream|
    ensures r.Text? ==> |r.rest| < |stream|
    decreases |stream|
  {
    ParseShrinks(stream);
    var frame := Parse(stream);
    if Stops(frame) then Stopped(frame) else WithPongs(PongFor(frame), Receive(frame.rest))
  }

  /** One unfolding of `Receive`. */
  lemma ReceiveStep(stream: seq<Byte>, frame: Parsed)
    requires Parse(stream) == frame
    ensures Receive(stream) == if Stops(frame) then Stopped(frame) else WithPongs(PongFor(frame), Receive(frame.rest))
  {
  }

  lemma WithPongsTwice(a: seq<Byte>, b: seq<Byte>, r: Received)
    ensures WithPongs(a, WithPongs(b, r)) == WithPongs(a + b, r)
  {
    assert a + (b + r.pongs) == (a + b) + r.pongs;
  }

  method ReadLength(connection: Socket, second: Byte) returns (size: Option<nat>)
    modifies connection`incoming
    ensures var s, extra := old(connection.incoming), ExtraBytes(second);
      if |s| < extra then size == None && connection.incoming == []
      else size == Some(if extra == 0 then second % 128 else Value(s[..extra])) && connection.incoming == s[extra..]
  {
    if second % 128 == 126 {
      var bytes := RecvExact(connection, 2);
      return if bytes.None? then None else Some(Value(bytes.value));
    } else if second % 128 == 127 {
      var bytes := RecvExact(connection, 8);
      return if bytes.None? then None else Some(Value(bytes.value));
    }
    return Some(second % 128);
  }

  method ReadBody(connection: Socket, opcode: nat, second: Byte, size: nat) returns (frame: Parsed)
    modifies connection`incoming
    ensures frame == ParseBody(opcode, second, size, old(connection.incoming))
    ensures connection.incoming == if frame.Complete? then frame.rest else []
  {
    ghost var s := connection.incoming;
    var key: Option<seq<Byte>> := None;
    if second >= 128 {
      key := RecvExact(connection, 4);
      if key.None? { return Truncated; }
    }
    var payload := RecvExact(connection, size);
    if payload.None? { return Truncated; }
    ghost var k := KeyBytes(second);
    assert payload.value == s[k..k + size] && connection.incoming == s[k + size..];
    return Complete(opcode, if key.Some? then Masked(payload.value, key.value) else payload.value, connection.incoming);
  }

  /** The reads at the head of `_receive`, one frame. */
  method ReadFrame(connection: Socket) returns (frame: Parsed)
    modifies connection`incoming
    ensures frame == Parse(old(connection.incoming))
    ensures connection.incoming == if frame.Complete? then frame.rest else []
  {
    var head := RecvExact(connection, 2);
    if head.None? { return Truncated; }
    var first, second := head.value[0], head.value[1];
    var size := ReadLength(connection, second);
    if size.None? { return Truncated; }
    frame := ReadBody(connection, first % 16, second, size.value);
  }

  /** `_receive`: skips control and other frames, answers pings, stops at the first text frame, close
      frame or end of stream; the recursion ends because every frame consumes bytes. */
  method ReceiveFrom(connection: Socket) returns (result: Received)
    modifies connection`incoming, connection`sent
    ensures result == Receive(old(connection.incoming))
    ensures connection.incoming == result.rest && connection.sent == old(connection.sent) + result.pongs
    decreases |connection.incoming|
  {
    ghost var stream := connection.incoming;
    ParseShrinks(stream);
    var frame := ReadFrame(connection);
    ReceiveStep(stream, frame);
    if Stops(frame) {
      return Stopped(frame);
    }
    var pong := PongFor(frame);
    connection.SendAll(pong);
    var later := ReceiveFrom(connection);
    ConcatAssociative(old(connection.sent), pong, later.pongs);
    return WithPongs(pong, later);
  }

  // What `_receive` does on whole streams of frames.

  function EncodeAll(frames: seq<Frame>): seq<Byte>
    requires forall k :: 0 <= k < |frames| ==> Passed(frames[k])
  {
    if frames == [] then [] else assert Passed(frames[0]); Encode(frames[0]) + EncodeAll(frames[1..])
  }

  /** Frames `_receive` passes over: anything but text, close and oversized pings. */
  predicate Passed(f: Frame) {
    f.Valid() && f.opcode != 1 && f.opcode != 8 && (f.opcode == 9 ==> |f.payload| < 256)
  }

  /** The pongs owed to the pings among some frames, in order. */
  function Pongs(frames: seq<Frame>): seq<Byte>
    requires forall k :: 0 <= k < |frames| ==> Passed(frames[k])
  {
    if frames == [] then []
    else assert Passed(frames[0]); (if frames[0].opcode == 9 then Pong(frames[0].payload) else []) + Pongs(frames[1..])
  }

  /** Main fact: passed frames cost exactly their pongs; what follows them decides the result. */
  lemma {:induction false} ReceivePasses(frames: seq<Frame>, stream: seq<Byte>)
    requires forall k :: 0 <= k < |frames| ==> Passed(frames[k])
    ensures Receive(EncodeAll(frames) + stream) == WithPongs(Pongs(frames), Receive(stream))
  {
    if frames == [] {
      assert EncodeAll(frames) + stream == stream;
      assert [] + Receive(stream).pongs == Receive(stream).pongs;
    } else {
      var f, rest := frames[0], EncodeAll(frames[1..]) + stream;
      assert Passed(f);
      assert EncodeAll(frames) + stream == Encode(f) + rest;
      ParseInvertsEncode(f, rest);
      ReceiveStep(Encode(f) + rest, Complete(f.opcode, f.payload, rest));
      ReceivePasses(frames[1..], stream);
      WithPongsTwice(if f.opcode == 9 then Pong(f.payload) else [], Pongs(frames[1..]), Receive(stream));
    }
  }

  /** Main fact: with well-formed frames interleaved, `_receive` returns the first text frame before any
      close frame and leaves exactly the bytes after it. */
  lemma {:induction false} ReceiveFirstText(before: seq<Frame>, text: Frame, rest: seq<Byte>)
    requires forall k :: 0 <= k < |before| ==> Passed(before[k])
    requires text.Valid() && text.opcode == 1
    ensures Receive(EncodeAll(before) + (Encode(text) + rest)) == Text(text.payload, rest, Pongs(before))
  {
    var tail := Encode(text) + rest;
    ReceivePasses(before, tail);
    ReceiveText(text, rest, tail);
    assert Pongs(before) + [] == Pongs(before);
  }

  lemma ReceiveText(text: Frame, rest: seq<Byte>, tail: seq<Byte>)
    requires text.Valid() && text.opcode == 1 && tail == Encode(text) + rest
    ensures Receive(tail) == Text(text.payload, rest, [])
  {
    ParseInvertsEncode(text, rest);
    ReceiveStep(tail, Complete(1, text.payload, rest));
  }

  lemma {:induction false} ReceiveCloseFirst(before: seq<Frame>, close: Frame, rest: seq<Byte>)
    requires forall k :: 0 <= k < |before| ==> Passed(before[k])
    requires close.Valid() && close.opcode == 8
    ensures Receive(EncodeAll(before) + (Encode(close) + rest)) == Closed(rest, Pongs(before))
  {
    ReceivePasses(before, Encode(close) + rest);
    ParseInvertsEncode(close, rest);
    ReceiveStep(Encode(close) + rest, Complete(8, close.payload, rest));
    assert Pongs(before) + [] == Pongs(before);
  }

  /** A ping of 256 bytes or more, which no single length byte can echo, raises. */
  lemma {:induction false} ReceiveOversizedPing(before: seq<Frame>, ping: Frame, rest: seq<Byte>)
    requires forall k :: 0 <= k < |before| ==> Passed(before[k])
    requires ping.Valid() && ping.opcode == 9 && 256 <= |ping.payload|
    ensures Receive(EncodeAll(before) + (Encode(ping) + rest)) == PingTooLong(rest, Pongs(before))
  {
    ReceivePasses(before, Encode(ping) + rest);
    ParseInvertsEncode(ping, rest);
    ReceiveStep(Encode(ping) + rest, Complete(9, ping.payload, rest));
    assert Pongs(before) + [] == Pongs(before);
  }

  /** If the peer closes inside a frame, the pings before it have been answered and the read fails. */
  lemma {:induction false} ReceiveCutFrame(before: seq<Frame>, last: Frame, k: nat)
    requires forall j :: 0 <= j < |before| ==> Passed(before[j])
    requires last.Valid() && k < |Encode(last)|
    ensures Receive(EncodeAll(before) + Encode(last)[..k]) == EndOfStream([], Pongs(before))
  {
    ReceivePasses(before, Encode(last)[..k]);
    CutFrameIsTruncated(last, k);
    ReceiveStep(Encode(last)[..k], Truncated);
    assert Pongs(before) + [] == Pongs(before);
  }

  /** A peer running the same `_receive` gets back exactly what `_send` was given, for every mask. */
  lemma {:induction false} SendReceiveRoundTrip(payload: seq<Byte>, mask: seq<Byte>, rest: seq<Byte>)
    requires |mask| == 4 && |payload| < Power256(8)
    ensures Receive(Encode(TextFrame(payload, mask)) + rest) == Text(payload, rest, [])
  {
    ParseInvertsEncode(TextFrame(payload, mask), rest);
    ReceiveStep(Encode(TextFrame(payload, mask)) + rest, Complete(1, payload, rest));
  }

  lemma PongIsParsedByLength(payload: seq<Byte>)
    requires |payload| < 256
    ensures Parse(Pong(payload)) == ParseLength(10, |payload|, payload)
  {
    PongBytes(payload);
  }

  lemma PongBytes(payload: seq<Byte>)
    requires |payload| < 256
    ensures var pong := Pong(payload);
      |pong| == 2 + |payload| && pong[0] == 138 && pong[1] == |payload| && pong[2..] == payload
  {
  }

  lemma ShortPayloadIsWhole(opcode: nat, payload: seq<Byte>)
    requires |payload| <= 125
    ensures ParseLength(opcode, |payload|, payload) == Complete(opcode, payload, [])
  {
    assert payload[0..] == payload;
    UnmaskedBody(opcode, |payload|, payload);
  }

  lemma UnmaskedBody(opcode: nat, second: Byte, payload: seq<Byte>)
    requires KeyBytes(second) == 0
    ensures ParseBody(opcode, second, |payload|, payload) == Complete(opcode, payload, [])
  {
    assert payload[0..|payload|] == payload && payload[|payload|..] == [];
  }

  /** A pong is a well-formed frame echoing the ping exactly when the payload obeys the control-frame
      limit of section 5.5. */
  lemma PongIsFrameIffShort(payload: seq<Byte>)
    requires |payload| < 256
    ensures Parse(Pong(payload)) == Complete(10, payload, []) <==> |payload| <= 125
  {
    PongIsParsedByLength(payload);
    if |payload| <= 125 {
      ShortPayloadIsWhole(10, payload);
    } else {
      ParsedLength(10, |payload|, payload);
      assert 0 < ExtraBytes(|payload|) + KeyBytes(|payload|);
    }
  }

  /** The shortest ping whose pong is not the frame it should be. */
  lemma PongOf126IsNoFrame()
    ensures var payload: seq<Byte> := seq(126, i => 0); Parse(Pong(payload)) != Complete(10, payload, [])
  {
    PongIsFrameIffShort(seq(126, i => 0));
  }

  // What `_receive` sends, against the masking rule for clients in section 5.3.

  /** The pong a client has to send: the same echo, masked with some key. */
  function MaskedEcho(payload: seq<Byte>, key: seq<Byte>): (bytes: seq<Byte>)
    requires |payload| < 256 && |key| == 4
    ensures |bytes| == 6 + ExtraLength(|payload|) + |payload|
  {
    SizeBelow256();
    Encode(Frame(8, 10, Some(key), payload))
  }

  /** It is read as a pong with the ping's payload, and carries its key. */
  lemma MaskedEchoIsPong(payload: seq<Byte>, key: seq<Byte>)
    requires |payload| < 256 && |key| == 4
    ensures Parse(MaskedEcho(payload, key)) == Complete(10, payload, []) && KeyBytes(MaskedEcho(payload, key)[1]) == 4
  {
    SizeBelow256();
    ParseInvertsEncode(Frame(8, 10, Some(key), payload), []);
    assert MaskedEcho(payload, key) + [] == MaskedEcho(payload, key);
    SecondByteDecodes(Frame(8, 10, Some(key), payload), ExtraLength(|payload|));
  }

  lemma SizeBelow256()
    ensures 256 <= Power256(8)
  {
    assert Power256(1) == 256 && Power256(2) == 65536;
  }

  /** The pongs a client has to send for the pings among some frames, each masked with its own key. */
  function MaskedEchoes(frames: seq<Frame>, keys: seq<seq<Byte>>): seq<Byte>
    requires |keys| == |frames| && forall k :: 0 <= k < |frames| ==> Passed(frames[k]) && |keys[k]| == 4
  {
    if frames == [] then []
    else
      assert Passed(frames[0]);
      (if frames[0].opcode == 9 then MaskedEcho(frames[0].payload, keys[0]) else [])
      + MaskedEchoes(frames[1..], keys[1..])
  }

  /** No pong is the masked echo, whatever the key. */
  lemma PongIsNeverMasked(payload: seq<Byte>, key: seq<Byte>)
    requires |payload| < 256 && |key| == 4
    ensures |Pong(payload)| + 4 <= |MaskedEcho(payload, key)| && Pong(payload) != MaskedEcho(payload, key)
  {
  }

  /** The mask bit of a pong is nevertheless set, and the peer reads a key, iff the ping has 128 bytes or more. */
  lemma PongHasMaskBitIffLong(payload: seq<Byte>)
    requires |payload| < 256
    ensures KeyBytes(Pong(payload)[1]) != 0 <==> 128 <= |payload|
  {
    PongBytes(payload);
  }

  ghost predicate NoPing(frames: seq<Frame>) {
    forall k :: 0 <= k < |frames| ==> frames[k].opcode != 9
  }

  lemma {:induction false} EchoesAreLonger(frames: seq<Frame>, keys: seq<seq<Byte>>)
    requires |keys| == |frames| && forall k :: 0 <= k < |frames| ==> Passed(frames[k]) && |keys[k]| == 4
    ensures NoPing(frames) ==> Pongs(frames) == [] && MaskedEchoes(frames, keys) == []
    ensures !NoPing(frames) ==> 2 <= |Pongs(frames)| && |Pongs(frames)| + 4 <= |MaskedEchoes(frames, keys)|
    ensures |Pongs(frames)| <= |MaskedEchoes(frames, keys)|
  {
    if frames == [] {
    } else {
      assert Passed(frames[0]);
      EchoesAreLonger(frames[1..], keys[1..]);
      assert NoPing(frames) <==> frames[0].opcode != 9 && NoPing(frames[1..]) by {
        assert forall k :: 1 <= k < |frames| ==> frames[k] == frames[1..][k - 1];
      }
      if frames[0].opcode == 9 {
        PongIsNeverMasked(frames[0].payload, keys[0]);
      }
    }
  }

  /** Main fact: on the way to a text frame `_receive` sends what a client has to send, for some or any keys, iff
      it sends nothing at all, which is iff there is no ping to answer. */
  lemma {:induction false} SendsMaskedIffNoPing(before: seq<Frame>, text: Frame, rest: seq<Byte>, keys: seq<seq<Byte>>)
    requires |keys| == |before| && forall k :: 0 <= k < |before| ==> Passed(before[k]) && |keys[k]| == 4
    requires text.Valid() && text.opcode == 1
    ensures var sent := Receive(EncodeAll(before) + (Encode(text) + rest)).pongs;
      && (sent == MaskedEchoes(before, keys) <==> NoPing(before))
      && (sent == [] <==> NoPing(before))
  {
    ReceiveFirstText(before, text, rest);
    EchoesAreLonger(before, keys);
  }

  /** The empty ping is answered by two bytes without a key. */
  lemma EmptyPingIsAnsweredUnmasked(key: seq<Byte>)
    requires |key| == 4
    ensures Pong([]) == [138, 0] && KeyBytes(Pong([])[1]) == 0 && Pong([]) != MaskedEcho([], key)
  {
    PongIsNeverMasked([], key);
  }

  /** A frame consumes its extra length bytes and its key besides its payload. */
  lemma ParsedLength(opcode: nat, second: Byte, stream: seq<Byte>)
    ensures var p := ParseLength(opcode, second, stream);
      p.Complete? ==> |stream| == ExtraBytes(second) + KeyBytes(second) + |p.payload| + |p.rest|
  {
  }
}
