/** WebSocket framing, RFC 6455 sections 5.2 and 5.3. */
module WsFraming {
  import opened Sequences
  import opened Utf8

  const PAYLOAD_LIMIT := 0x1_0000_0000_0000_0000

  /** Exclusive or of the low `bits` bits. */
  function XorBits(a: nat, b: nat, bits: nat): (r: nat)
  {
    if bits == 0 then 0 else (a + b) % 2 + 2 * XorBits(a / 2, b / 2, bits - 1)
  }

  function Pow2(n: nat): nat {
    if n == 0 then 1 else 2 * Pow2(n - 1)
  }

  lemma Digits(p: nat, r: nat)
    requires p < 2
    ensures (p + 2 * r) / 2 == r && (p + 2 * r) % 2 == p
  {
  }

  lemma Parity(a: nat, b: nat)
    ensures (a + b) % 2 == if a % 2 == b % 2 then 0 else 1
  {
    assert a + b == 2 * (a / 2 + b / 2) + (a % 2 + b % 2);
  }

  lemma XorDigits(a: nat, b: nat, bits: nat)
    requires bits > 0
    ensures XorBits(a, b, bits) / 2 == XorBits(a / 2, b / 2, bits - 1)
    ensures XorBits(a, b, bits) % 2 == (a + b) % 2 == if a % 2 == b % 2 then 0 else 1
  {
    var p, r := (a + b) % 2, XorBits(a / 2, b / 2, bits - 1);
    assert XorBits(a, b, bits) == p + 2 * r;
    hide *;
    Digits(p, r);
    Parity(a, b);
  }

  lemma {:induction false} XorTwice(a: nat, b: nat, bits: nat)
    requires a < Pow2(bits)
    ensures XorBits(a, b, bits) < Pow2(bits)
    ensures XorBits(XorBits(a, b, bits), b, bits) == a
  {
    if bits > 0 {
      XorTwice(a / 2, b / 2, bits - 1);
      XorDigits(a, b, bits);
      XorDigits(XorBits(a, b, bits), b, bits);
      hide XorBits;
    }
  }

  /** The binary digit of `a` at position `k`. */
  function Bit(a: nat, k: nat): nat {
    if k == 0 then a % 2 else Bit(a / 2, k - 1)
  }

  /** Digit by digit, the result is one exactly where the operands differ. */
  lemma {:induction false} XorIsBitwise(a: nat, b: nat, bits: nat, k: nat)
    requires k < bits
    ensures Bit(XorBits(a, b, bits), k) == if Bit(a, k) == Bit(b, k) then 0 else 1
  {
    hide XorBits;
    XorDigits(a, b, bits);
    if k > 0 {
      XorIsBitwise(a / 2, b / 2, bits - 1, k - 1);
    }
  }

  function Xor(a: Byte, b: Byte): (r: Byte)
    ensures XorBits(r, b, 8) == a
  {
    assert Pow2(8) == 256;
    XorTwice(a, b, 8);
    XorBits(a, b, 8)
  }

  lemma XorUndone(a: Byte, b: Byte)
    ensures Xor(Xor(a, b), b) == a
  {
  }

  /** Every payload byte combined with its byte of the four-byte key, which repeats; without such a key the
      payload stays as it is. */
  function Unmask(payload: Bytes, key: Bytes): (r: Bytes)
    ensures |r| == |payload|
  {
    if |key| != 4 then payload
    else seq(|payload|, i requires 0 <= i < |payload| => Xor(payload[i], key[i % 4]))
  }

  /** Payload byte `i` and key byte `i mod 4` give byte `i` of `masked`: digit by digit one exactly where
      the two differ (RFC 6455, section 5.3). */
  ghost predicate MaskedWith(masked: Bytes, payload: Bytes, key: Bytes) {
    && |masked| == |payload| && |key| == 4
    && forall i, k :: 0 <= i < |payload| && 0 <= k < 8 ==>
      Bit(masked[i], k) == if Bit(payload[i], k) == Bit(key[i % 4], k) then 0 else 1
  }

  lemma UnmaskIsBitwise(payload: Bytes, key: Bytes)
    ensures if |key| == 4 then MaskedWith(Unmask(payload, key), payload, key) else Unmask(payload, key) == payload
  {
    hide XorBits, Bit;
    if |key| == 4 {
      forall i, k | 0 <= i < |payload| && 0 <= k < 8
        ensures Bit(Unmask(payload, key)[i], k) == if Bit(payload[i], k) == Bit(key[i % 4], k) then 0 else 1
      {
        XorIsBitwise(payload[i], key[i % 4], 8, k);
      }
    }
  }

  lemma UnmaskTwice(payload: Bytes, key: Bytes)
    ensures Unmask(Unmask(payload, key), key) == payload
  {
    if |key| == 4 {
      var masked := Unmask(payload, key);
      forall i | 0 <= i < |payload| ensures Unmask(masked, key)[i] == payload[i] {
        XorUndone(payload[i], key[i % 4]);
      }
    }
  }

  /** `struct.pack(">H")` and `struct.pack(">Q")`: `width` bytes, most significant first. */
  function BigEndian(n: nat, width: nat): (r: Bytes)
    ensures |r| == width
  {
    if width == 0 then [] else BigEndian(n / 256, width - 1) + [n % 256]
  }

  function FromBigEndian(b: Bytes): nat {
    if b == [] then 0 else FromBigEndian(b[..|b| - 1]) * 256 + b[|b| - 1]
  }

  function Pow256(n: nat): nat {
    if n == 0 then 1 else 256 * Pow256(n - 1)
  }

  lemma {:induction false} BigEndianRoundTrip(n: nat, width: nat)
    requires n < Pow256(width)
    ensures FromBigEndian(BigEndian(n, width)) == n
  {
    if width > 0 {
      BigEndianRoundTrip(n / 256, width - 1);
      var b := BigEndian(n, width);
      assert b[..|b| - 1] == BigEndian(n / 256, width - 1);
    }
  }

  lemma {:induction false} FromBigEndianBound(b: Bytes)
    ensures FromBigEndian(b) < Pow256(|b|)
  {
    if b != [] {
      FromBigEndianBound(b[..|b| - 1]);
    }
  }

  /** The frame of one message: header, key when masked, payload. */
  function Header(length: nat, opcode: int, fin: bool, mask: bool): Bytes {
    var first: Byte := (if fin then 0x80 else 0x00) + opcode % 16;
    var bit := if mask then 0x80 else 0x00;
    if length <= 125 then [first, bit + length]
    else if length <= 65535 then [first, bit + 126] + BigEndian(length, 2)
    else [first, bit + 127] + BigEndian(length, 8)
  }

  function Frame(payload: Bytes, opcode: int, fin: bool, mask: bool, key: Bytes): Bytes {
    Header(|payload|, opcode, fin, mask) + (if mask then key + Unmask(payload, key) else payload)
  }

  // ---------- The bytes on the wire ----------

  /** A two-byte and an eight-byte number at offset 2, most significant byte first. */
  function Short(b: Bytes): nat
    requires |b| >= 4
  {
    b[2] as int * 256 + b[3]
  }

  function Long(b: Bytes): nat
    requires |b| >= 10
  {
    ((((((b[2] as int * 256 + b[3]) * 256 + b[4]) * 256 + b[5]) * 256 + b[6]) * 256 + b[7]) * 256 + b[8]) * 256 + b[9]
  }

  lemma FromBigEndianSnoc(b: Bytes, from: nat, to: nat)
    requires from < to <= |b|
    ensures FromBigEndian(b[from..to]) == FromBigEndian(b[from..to - 1]) * 256 + b[to - 1]
  {
    assert b[from..to][..to - from - 1] == b[from..to - 1];
  }

  lemma FromBigEndianAt(b: Bytes)
    ensures |b| >= 4 ==> FromBigEndian(b[2..4]) == Short(b)
    ensures |b| >= 10 ==> FromBigEndian(b[2..10]) == Long(b)
  {
    hide FromBigEndian;
    if |b| >= 4 {
      assert FromBigEndian(b[2..2]) == 0 by { assert b[2..2] == []; FromBigEndianOfNothing(); }
      FromBigEndianSnoc(b, 2, 3);
      FromBigEndianSnoc(b, 2, 4);
    }
    if |b| >= 10 {
      FromBigEndianSnoc(b, 2, 5);
      FromBigEndianSnoc(b, 2, 6);
      FromBigEndianSnoc(b, 2, 7);
      FromBigEndianSnoc(b, 2, 8);
      FromBigEndianSnoc(b, 2, 9);
      FromBigEndianSnoc(b, 2, 10);
    }
  }

  lemma FromBigEndianOfNothing()
    ensures FromBigEndian([]) == 0
  {
  }

  /** The frame format of RFC 6455, section 5.2, byte by byte; `start` is where the key or payload begins. */
  ghost predicate OnTheWire(f: Bytes, start: nat, payload: Bytes, opcode: int, fin: bool, mask: bool, key: Bytes) {
    var length, lead := |payload|, if mask then 128 else 0;
    && |f| == start + length + (if mask then 4 else 0)
    && start == (if length < 126 then 2 else if length < 65536 then 4 else 10)
    && f[0] == (if fin then 128 else 0) + opcode % 16
    && f[1] == lead + (if length < 126 then length else if length < 65536 then 126 else 127)
    && (start == 4 ==> Short(f) == length)
    && (start == 10 ==> Long(f) == length)
    && if mask then f[start..start + 4] == key && MaskedWith(f[start + 4..], payload, key) else f[start..] == payload
  }

  /** The loop of `encode_frame` that masks the payload. */
  method MaskPayload(payload: Bytes, key: Bytes) returns (masked: Bytes)
    requires |key| == 4
    ensures masked == Unmask(payload, key) && MaskedWith(masked, payload, key)
  {
    hide Xor, MaskedWith;
    var buffer := new Byte[|payload|](_ => 0);
    for i := 0 to |payload|
      invariant forall j :: 0 <= j < i ==> buffer[j] == Xor(payload[j], key[j % 4])
    {
      buffer[i] := Xor(payload[i], key[i % 4]);
    }
    masked := buffer[..];
    assert masked == Unmask(payload, key);
    hide Unmask;
    UnmaskIsBitwise(payload, key);
  }

  lemma AppendTwice(a: Bytes, b: Bytes, c: Bytes)
    ensures (a + b) + c == a + (b + c)
  {
  }

  /** `key` stands for the four random bytes.  `None`: the length does not fit 64 bits. */
  method EncodeFrame(payload: Bytes, opcode: int, fin: bool, mask: bool, key: Bytes) returns (result: Option<Bytes>)
    requires |key| == 4
    ensures result == if |payload| < PAYLOAD_LIMIT then Some(Frame(payload, opcode, fin, mask, key)) else None
    ensures result.Some? ==> exists start :: OnTheWire(result.value, start, payload, opcode, fin, mask, key)
  {
    hide Unmask, BigEndian, OnTheWire, MaskedWith;
    var frame: Bytes := [(if fin then 0x80 else 0x00) + opcode % 16];
    var length := |payload|;
    if length <= 125 {
      frame := frame + [(if mask then 0x80 else 0x00) + length];
    } else if length <= 65535 {
      frame := frame + [(if mask then 0x80 else 0x00) + 126];
      frame := frame + BigEndian(length, 2);
    } else {
      frame := frame + [(if mask then 0x80 else 0x00) + 127];
      if length >= PAYLOAD_LIMIT {
        return None;
      }
      frame := frame + BigEndian(length, 8);
    }
    assert frame == Header(length, opcode, fin, mask);
    hide Header;
    if mask {
      frame := frame + key;
      var masked := MaskPayload(payload, key);
      AppendTwice(Header(length, opcode, fin, mask), key, masked);
      frame := frame + masked;
    } else {
      frame := frame + payload;
    }
    FrameIsOnTheWire(payload, opcode, fin, mask, key);
    result := Some(frame);
  }

  /** Whatever the message, the frame is the one the standard prescribes. */
  lemma FrameIsOnTheWire(payload: Bytes, opcode: int, fin: bool, mask: bool, key: Bytes)
    requires |key| == 4 && |payload| < PAYLOAD_LIMIT
    ensures var h := |Header(|payload|, opcode, fin, mask)|;
      OnTheWire(Frame(payload, opcode, fin, mask, key), h, payload, opcode, fin, mask, key)
  {
    hide MaskedWith, Unmask, Short, Long, Header;
    var head := Header(|payload|, opcode, fin, mask);
    var keyPart, body := if mask then key else [], if mask then Unmask(payload, key) else payload;
    var f := Frame(payload, opcode, fin, mask, key);
    assert f == head + (keyPart + body);
    HeaderBytes(|payload|, opcode, fin, mask);
    LengthIsSpelled(|payload|, opcode, fin, mask, keyPart + body);
    UnmaskIsBitwise(payload, key);
    KeyAndBody(head, keyPart, body);
    hide Frame;
  }

  lemma KeyAndBody(head: Bytes, key: Bytes, body: Bytes)
    ensures var f := head + (key + body);
      f[|head|..] == key + body && f[|head|..|head| + |key|] == key && f[|head| + |key|..] == body
  {
  }

  lemma HeaderBytes(length: nat, opcode: int, fin: bool, mask: bool)
    ensures var h := Header(length, opcode, fin, mask);
      && |h| == (if length < 126 then 2 else if length < 65536 then 4 else 10)
      && h[0] == (if fin then 128 else 0) + opcode % 16
      && h[1] == (if mask then 128 else 0) + (if length < 126 then length else if length < 65536 then 126 else 127)
  {
    hide BigEndian;
  }

  lemma LengthIsSpelled(length: nat, opcode: int, fin: bool, mask: bool, later: Bytes)
    requires length < PAYLOAD_LIMIT
    ensures var h := Header(length, opcode, fin, mask);
      && (|h| == 4 ==> Short(h + later) == length)
      && (|h| == 10 ==> Long(h + later) == length)
  {
    ParseOwnHeader(length, opcode, fin, mask, later);
    FromBigEndianAt(Header(length, opcode, fin, mask) + later);
    hide FromBigEndian, Short, Long, BigEndian;
  }

  datatype Parsed = Parsed(finRsvOpcode: Byte, mask: int, payloadLen: nat, size: nat)

  /** `None`: the header is incomplete. */
  function ParseHeader(b: Bytes): Option<Parsed> {
    if |b| < 2 then None
    else
      var mask, short := b[1] / 128 % 2, b[1] % 128;
      if short == 126 then
        if |b| < 4 then None else Some(Parsed(b[0], mask, FromBigEndian(b[2..4]), 4))
      else if short == 127 then
        if |b| < 10 then None else Some(Parsed(b[0], mask, FromBigEndian(b[2..10]), 10))
      else Some(Parsed(b[0], mask, short, 2))
  }

  method ParseHeaderBytes(b: Bytes) returns (result: Option<Parsed>)
    ensures result == ParseHeader(b)
  {
    if |b| < 2 {
      return None;
    }
    var maskLenByte := b[1];
    var mask := maskLenByte / 128 % 2;
    var payloadLen: nat := maskLenByte % 128;
    var size := 2;
    if payloadLen == 126 {
      if |b| < 4 {
        return None;
      }
      payloadLen := FromBigEndian(b[2..4]);
      size := 4;
    } else if payloadLen == 127 {
      if |b| < 10 {
        return None;
      }
      payloadLen := FromBigEndian(b[2..10]);
      size := 10;
    }
    result := Some(Parsed(b[0], mask, payloadLen, size));
  }

  /** What the parser makes of any bytes, by the same format: it is incomplete exactly when the bytes end
      before the length does. */
  lemma HeaderFields(b: Bytes)
    ensures ParseHeader(b).None? <==> |b| < 2 || (b[1] % 128 == 126 && |b| < 4) || (b[1] % 128 == 127 && |b| < 10)
    ensures ParseHeader(b).Some? ==> var h := ParseHeader(b).value;
      && h.finRsvOpcode == b[0] && h.mask == (if b[1] >= 128 then 1 else 0)
      && h.size == (if b[1] % 128 == 126 then 4 else if b[1] % 128 == 127 then 10 else 2)
      && h.payloadLen == (if h.size == 4 then Short(b) else if h.size == 10 then Long(b) else b[1] % 128)
  {
    FromBigEndianAt(b);
    hide FromBigEndian, Short, Long;
  }

  // ---------- Reading frames back ----------

  datatype Message = Message(fin: bool, opcode: int, payload: Bytes)

  /** The first frame of `b` and how many bytes it takes: the header, four key bytes when the mask
      bit is set, the payload. */
  function ReadFrame(b: Bytes): (r: Option<(Message, nat)>)
    ensures r.Some? ==> 2 <= r.value.1 <= |b|
  {
    match ParseHeader(b)
    case None => None
    case Some(h) =>
      var start := h.size + (if h.mask == 1 then 4 else 0);
      if |b| < start + h.payloadLen then None
      else
        var key := if h.mask == 1 then b[h.size..start] else [];
        var payload := Unmask(b[start..start + h.payloadLen], key);
        Some((Message(h.finRsvOpcode / 128 == 1, h.finRsvOpcode % 16, payload), start + h.payloadLen))
  }

  function ReadAll(b: Bytes): Option<seq<Message>>
    decreases |b|
  {
    if b == [] then Some([])
    else
      match ReadFrame(b)
      case None => None
      case Some((m, n)) =>
        match ReadAll(b[n..])
        case None => None
        case Some(rest) => Some([m] + rest)
  }

  /** What is sent: a message with its opcode, whether to mask it, and with what key. */
  datatype Sending = Sending(payload: Bytes, opcode: int, fin: bool, mask: bool, key: Bytes)

  predicate Sendable(s: Sending) {
    |s.key| == 4 && |s.payload| < PAYLOAD_LIMIT
  }

  function FrameOf(s: Sending): Bytes {
    Frame(s.payload, s.opcode, s.fin, s.mask, s.key)
  }

  function FramesOf(sent: seq<Sending>): Bytes {
    if sent == [] then [] else FrameOf(sent[0]) + FramesOf(sent[1..])
  }

  function MessageOf(s: Sending): Message {
    Message(s.fin, s.opcode % 16, s.payload)
  }

  function MessagesOf(sent: seq<Sending>): seq<Message> {
    if sent == [] then [] else [MessageOf(sent[0])] + MessagesOf(sent[1..])
  }

  lemma ParseOwnHeader(length: nat, opcode: int, fin: bool, mask: bool, later: Bytes)
    requires length < PAYLOAD_LIMIT
    ensures var h := Header(length, opcode, fin, mask);
      ParseHeader(h + later) == Some(Parsed(h[0], if mask then 1 else 0, length, |h|))
  {
    var h := Header(length, opcode, fin, mask);
    assert Pow256(2) == 65536;
    assert Pow256(8) == PAYLOAD_LIMIT by {
      assert Pow256(4) == 0x1_0000_0000;
    }
    HeaderBytes(length, opcode, fin, mask);
    if 125 < length <= 65535 {
      assert (h + later)[2..4] == BigEndian(length, 2);
      BigEndianRoundTrip(length, 2);
    } else if length > 65535 {
      assert (h + later)[2..10] == BigEndian(length, 8);
      BigEndianRoundTrip(length, 8);
    }
    hide Header, BigEndian, FromBigEndian, Pow256;
  }

  lemma HeaderStart(length: nat, opcode: int, fin: bool, mask: bool)
    ensures var h := Header(length, opcode, fin, mask);
      |h| >= 2 && h[0] / 128 == (if fin then 1 else 0) && h[0] % 16 == opcode % 16
  {
  }

  lemma ReadFromParts(b: Bytes, head: Bytes, key: Bytes, body: Bytes, later: Bytes, h: Parsed)
    requires b == head + key + body + later
    requires ParseHeader(b) == Some(h) && h.size == |head| && h.payloadLen == |body|
    requires |key| == if h.mask == 1 then 4 else 0
    requires h.finRsvOpcode / 128 < 2
    ensures ReadFrame(b) ==
      Some((Message(h.finRsvOpcode / 128 == 1, h.finRsvOpcode % 16, Unmask(body, key)), |head| + |key| + |body|))
  {
    hide Unmask, ParseHeader;
    var start := |head| + |key|;
    assert b[|head|..start] == key;
    assert b[start..start + |body|] == body;
  }

  function KeyPart(s: Sending): Bytes {
    if s.mask then s.key else []
  }

  function BodyPart(s: Sending): Bytes {
    if s.mask then Unmask(s.payload, s.key) else s.payload
  }

  lemma FrameParts(s: Sending, later: Bytes)
    ensures var head := Header(|s.payload|, s.opcode, s.fin, s.mask);
      && FrameOf(s) + later == head + (KeyPart(s) + BodyPart(s) + later)
      && FrameOf(s) + later == head + KeyPart(s) + BodyPart(s) + later
      && |FrameOf(s)| == |head| + |KeyPart(s)| + |BodyPart(s)|
  {
    hide Unmask, Header;
  }

  lemma PartsUnmask(s: Sending)
    requires Sendable(s)
    ensures |s.payload| < PAYLOAD_LIMIT && |BodyPart(s)| == |s.payload|
    ensures |KeyPart(s)| == if s.mask then 4 else 0
    ensures Unmask(BodyPart(s), KeyPart(s)) == s.payload
  {
    UnmaskTwice(s.payload, s.key);
  }

  lemma ReadOwnFrame(s: Sending, later: Bytes)
    requires Sendable(s)
    ensures ReadFrame(FrameOf(s) + later) == Some((MessageOf(s), |FrameOf(s)|))
  {
    hide Unmask, Header, ParseHeader, ReadFrame, BigEndian, FrameOf, KeyPart, BodyPart;
    var head, key, body := Header(|s.payload|, s.opcode, s.fin, s.mask), KeyPart(s), BodyPart(s);
    PartsUnmask(s);
    HeaderStart(|s.payload|, s.opcode, s.fin, s.mask);
    FrameParts(s, later);
    ParseOwnHeader(|s.payload|, s.opcode, s.fin, s.mask, key + body + later);
    var h := Parsed(head[0], if s.mask then 1 else 0, |s.payload|, |head|);
    ReadFromParts(FrameOf(s) + later, head, key, body, later, h);
  }

  /** Any sequence of encoded frames reads back as the messages that were sent, so no two different
      message lists share an encoding. */
  lemma {:induction false} FramesReadBack(sent: seq<Sending>)
    requires forall i :: 0 <= i < |sent| ==> Sendable(sent[i])
    ensures ReadAll(FramesOf(sent)) == Some(MessagesOf(sent))
  {
    if sent != [] {
      var rest := FramesOf(sent[1..]);
      ReadOwnFrame(sent[0], rest);
      assert FramesOf(sent)[|FrameOf(sent[0])|..] == rest;
      FramesReadBack(sent[1..]);
    }
  }

  /** No header of any form that announces the same payload length is shorter. */
  lemma HeaderIsMinimal(length: nat, opcode: int, fin: bool, mask: bool, other: Bytes)
    requires length < PAYLOAD_LIMIT
    requires ParseHeader(other).Some? && ParseHeader(other).value.payloadLen == length
    ensures |Header(length, opcode, fin, mask)| <= ParseHeader(other).value.size
  {
    if ParseHeader(other).value.size == 4 {
      FromBigEndianBound(other[2..4]);
      assert Pow256(2) == 65536;
    }
  }

  /** A header cut short is reported as incomplete, never misread. */
  lemma TruncatedHeader(length: nat, opcode: int, fin: bool, mask: bool, n: nat)
    requires n < |Header(length, opcode, fin, mask)|
    ensures ParseHeader(Header(length, opcode, fin, mask)[..n]) == None
  {
  }

  /** So is a whole frame cut short anywhere. */
  lemma TruncatedFrame(s: Sending, n: nat)
    requires Sendable(s) && n < |FrameOf(s)|
    ensures ReadFrame(FrameOf(s)[..n]) == None
  {
    var h := Header(|s.payload|, s.opcode, s.fin, s.mask);
    var b := FrameOf(s)[..n];
    if n < |h| {
      TruncatedHeader(|s.payload|, s.opcode, s.fin, s.mask, n);
      assert b == h[..n];
    } else {
      ParseOwnHeader(|s.payload|, s.opcode, s.fin, s.mask, b[|h|..]);
      assert b == h + b[|h|..];
    }
  }
}
