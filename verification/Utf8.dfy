/** Bytes, and the UTF-8 text encoding of RFC 3629 with replacement of malformed input. */
module Utf8 {
  type Byte = x: int | 0 <= x < 256
  type Bytes = seq<Byte>

  const REPLACEMENT: char := '\U{FFFD}'

  function EncodeChar(c: char): (r: Bytes)
    ensures 1 <= |r| <= 4
    ensures c as int < 0x80 ==> r == [c as int]
    ensures c as int >= 0x80 ==> forall i :: 0 <= i < |r| ==> r[i] >= 0x80
  {
    var n := c as int;
    if n < 0x80 then [n]
    else
      var q := n / 64;
      if n < 0x800 then [0xC0 + q, 0x80 + n % 64]
      else if n < 0x10000 then [0xE0 + q / 64, 0x80 + q % 64, 0x80 + n % 64]
      else [0xF0 + q / 64 / 64, 0x80 + q / 64 % 64, 0x80 + q % 64, 0x80 + n % 64]
  }

  function Encode(s: string): Bytes {
    if s == "" then [] else EncodeChar(s[0]) + Encode(s[1..])
  }

  predicate Continuation(b: Byte) {
    0x80 <= b < 0xC0
  }

  /** Whether `b1` may follow the lead byte `b0` of a sequence of three or four bytes. */
  predicate SecondOk(b0: Byte, b1: Byte) {
    if b0 == 0xE0 then 0xA0 <= b1 < 0xC0
    else if b0 == 0xED then 0x80 <= b1 < 0xA0
    else if b0 == 0xF0 then 0x90 <= b1 < 0xC0
    else if b0 == 0xF4 then 0x80 <= b1 < 0x90
    else Continuation(b1)
  }

  function Point2(b0: int, b1: int): int {
    (b0 - 0xC0) * 64 + (b1 - 0x80)
  }

  function Point3(b0: int, b1: int, b2: int): int {
    (b0 - 0xE0) * 4096 + (b1 - 0x80) * 64 + (b2 - 0x80)
  }

  function Point4(b0: int, b1: int, b2: int, b3: int): int {
    (b0 - 0xF0) * 262144 + (b1 - 0x80) * 4096 + (b2 - 0x80) * 64 + (b3 - 0x80)
  }

  /** The first character of `b` and the number of bytes it takes; a malformed prefix is replaced as
      far as it could have started a character. */
  function DecodeChar(b: Bytes): (r: (char, nat))
    requires b != []
    ensures 1 <= r.1 <= |b|
  {
    var b0 := b[0];
    if b0 < 0x80 then (b0 as char, 1)
    else if 0xC2 <= b0 < 0xE0 then
      if |b| > 1 && Continuation(b[1]) then (Point2(b0, b[1]) as char, 2) else (REPLACEMENT, 1)
    else if 0xE0 <= b0 < 0xF0 then
      if |b| > 1 && SecondOk(b0, b[1]) then
        if |b| > 2 && Continuation(b[2]) then
          (Point3(b0, b[1], b[2]) as char, 3)
        else (REPLACEMENT, 2)
      else (REPLACEMENT, 1)
    else if 0xF0 <= b0 < 0xF5 then
      if |b| > 1 && SecondOk(b0, b[1]) then
        if |b| > 2 && Continuation(b[2]) then
          if |b| > 3 && Continuation(b[3]) then
            (Point4(b0, b[1], b[2], b[3]) as char, 4)
          else (REPLACEMENT, 3)
        else (REPLACEMENT, 2)
      else (REPLACEMENT, 1)
    else (REPLACEMENT, 1)
  }

  function Decode(b: Bytes): string {
    if b == [] then "" else [DecodeChar(b).0] + Decode(b[DecodeChar(b).1..])
  }

  lemma CharRoundTrip(c: char, rest: Bytes)
    ensures DecodeChar(EncodeChar(c) + rest) == (c, |EncodeChar(c)|)
  {
    var n := c as int;
    var e := EncodeChar(c);
    assert forall i :: 0 <= i < |e| ==> (e + rest)[i] == e[i];
    if n < 0x80 {
    } else if n < 0x800 {
      assert Point2(e[0], e[1]) == n;
    } else if n < 0x10000 {
      assert Point3(e[0], e[1], e[2]) == n;
    } else {
      assert Point4(e[0], e[1], e[2], e[3]) == n;
    }
  }

  lemma {:induction false} RoundTrip(s: string)
    ensures Decode(Encode(s)) == s
  {
    if s != "" {
      var rest := Encode(s[1..]);
      CharRoundTrip(s[0], rest);
      assert (EncodeChar(s[0]) + rest)[|EncodeChar(s[0])|..] == rest;
      RoundTrip(s[1..]);
    }
  }

  lemma {:induction false} EncodeConcat(s: string, t: string)
    ensures Encode(s + t) == Encode(s) + Encode(t)
  {
    if s == "" {
      assert s + t == t;
    } else {
      assert (s + t)[1..] == s[1..] + t;
      EncodeConcat(s[1..], t);
    }
  }

  // ---------- Malformed input ----------

  /** The shape of an encoded character, as the decoder checks it. */
  lemma EncodedShape(c: char)
    ensures var e := EncodeChar(c);
      && (|e| == 1 ==> e[0] < 0x80)
      && (|e| == 2 ==> 0xC2 <= e[0] < 0xE0 && Continuation(e[1]))
      && (|e| == 3 ==> 0xE0 <= e[0] < 0xF0 && SecondOk(e[0], e[1]) && Continuation(e[2]))
      && (|e| == 4 ==> 0xF0 <= e[0] < 0xF5 && SecondOk(e[0], e[1]) && Continuation(e[2]) && Continuation(e[3]))
  {
  }

  lemma Encoded2(b0: Byte, b1: Byte)
    requires 0xC2 <= b0 < 0xE0 && Continuation(b1)
    ensures EncodeChar(Point2(b0, b1) as char) == [b0, b1]
  {
  }

  lemma Encoded3(b0: Byte, b1: Byte, b2: Byte)
    requires 0xE0 <= b0 < 0xF0 && SecondOk(b0, b1) && Continuation(b2)
    ensures EncodeChar(Point3(b0, b1, b2) as char) == [b0, b1, b2]
  {
  }

  lemma Encoded4(b0: Byte, b1: Byte, b2: Byte, b3: Byte)
    requires 0xF0 <= b0 < 0xF5 && SecondOk(b0, b1) && Continuation(b2) && Continuation(b3)
    ensures EncodeChar(Point4(b0, b1, b2, b3) as char) == [b0, b1, b2, b3]
  {
    var n := Point4(b0, b1, b2, b3);
    assert n / 64 == (b0 - 0xF0) * 4096 + (b1 - 0x80) * 64 + (b2 - 0x80) && n % 64 == b3 - 0x80;
    assert n / 64 / 64 == (b0 - 0xF0) * 64 + (b1 - 0x80) && n / 64 % 64 == b2 - 0x80;
    assert n / 64 / 64 / 64 == b0 - 0xF0 && n / 64 / 64 % 64 == b1 - 0x80;
    assert 0x10000 <= n;
  }

  /** Some character's encoding starts with these bytes. */
  ghost predicate CanStart(p: Bytes) {
    exists c :: p <= EncodeChar(c)
  }

  /** The bytes start with the encoding of a character. */
  ghost predicate StartsWell(b: Bytes) {
    exists c :: EncodeChar(c) <= b
  }

  /** What a byte may be followed by: the least second byte of a long sequence. */
  function LeastSecond(b0: Byte): Byte {
    if b0 == 0xE0 then 0xA0 else if b0 == 0xF0 then 0x90 else 0x80
  }

  /** Bytes that the decoder accepts so far can be completed. */
  lemma Completed(b: Bytes, n: nat) returns (c: char)
    requires 1 <= n <= |b| && n <= 4 && AcceptedSoFar(b, n)
    ensures b[..n] <= EncodeChar(c)
  {
    var b0 := b[0];
    var b1 := if n > 1 then b[1] else LeastSecond(b0);
    var b2, b3 := if n > 2 then b[2] else 0x80, if n > 3 then b[3] else 0x80;
    if b0 < 0x80 {
      c := b0 as char;
    } else if b0 < 0xE0 {
      Encoded2(b0, b1);
      c := Point2(b0, b1) as char;
    } else if b0 < 0xF0 {
      Encoded3(b0, b1, b2);
      c := Point3(b0, b1, b2) as char;
    } else {
      Encoded4(b0, b1, b2, b3);
      c := Point4(b0, b1, b2, b3) as char;
    }
    hide EncodeChar;
  }

  predicate AcceptedSoFar(b: Bytes, n: nat)
    requires 1 <= n <= |b|
  {
    match n
    case 1 => b[0] < 0x80 || 0xC2 <= b[0] < 0xF5
    case 2 => (0xC2 <= b[0] < 0xE0 && Continuation(b[1])) || (0xE0 <= b[0] < 0xF5 && SecondOk(b[0], b[1]))
    case 3 => 0xE0 <= b[0] < 0xF5 && SecondOk(b[0], b[1]) && Continuation(b[2])
    case 4 => 0xF0 <= b[0] < 0xF5 && SecondOk(b[0], b[1]) && Continuation(b[2]) && Continuation(b[3])
    case _ => false
  }

  lemma StartsAre(b: Bytes, n: nat)
    requires 1 <= n <= |b|
    ensures CanStart(b[..n]) <==> AcceptedSoFar(b, n)
  {
    if CanStart(b[..n]) {
      var c :| b[..n] <= EncodeChar(c);
      var e := EncodeChar(c);
      EncodedShape(c);
      hide EncodeChar, SecondOk;
      assert forall i :: 0 <= i < n ==> b[i] == b[..n][i] == e[i];
    }
    if AcceptedSoFar(b, n) {
      var c := Completed(b, n);
    }
  }

  /** A character that is neither replaced by mistake nor misread: its bytes are its encoding. */
  lemma AcceptedIsEncoded(b: Bytes)
    requires b != []
    ensures var r := DecodeChar(b);
      if AcceptedSoFar(b, r.1) && r.1 == SequenceLength(b[0]) then EncodeChar(r.0) == b[..r.1]
      else r.0 == REPLACEMENT && (r.1 > 1 ==> AcceptedSoFar(b, r.1)) && (r.1 < |b| ==> !AcceptedSoFar(b, r.1 + 1))
  {
    var b0 := b[0];
    if 0xC2 <= b0 < 0xE0 && |b| > 1 && Continuation(b[1]) {
      Encoded2(b0, b[1]);
    } else if 0xE0 <= b0 < 0xF0 && |b| > 2 && SecondOk(b0, b[1]) && Continuation(b[2]) {
      Encoded3(b0, b[1], b[2]);
    } else if 0xF0 <= b0 < 0xF5 && |b| > 3 && SecondOk(b0, b[1]) && Continuation(b[2]) && Continuation(b[3]) {
      Encoded4(b0, b[1], b[2], b[3]);
    }
    hide EncodeChar, Point2, Point3, Point4;
  }

  /** How many bytes a sequence with this first byte has. */
  function SequenceLength(b0: Byte): nat {
    if b0 < 0x80 then 1 else if b0 < 0xE0 then 2 else if b0 < 0xF0 then 3 else 4
  }

  /** Decoding takes off the encoding of a character if there is one in front, and otherwise replaces the
      longest front that could have started one, or else a single byte (the practice that the Unicode
      Standard recommends, section 3.9). */
  lemma DecodesOrReplaces(b: Bytes)
    requires b != []
    ensures var r := DecodeChar(b);
      if StartsWell(b) then EncodeChar(r.0) == b[..r.1]
      else
        && r.0 == REPLACEMENT && (r.1 > 1 ==> CanStart(b[..r.1]))
        && forall m :: r.1 < m <= |b| ==> !CanStart(b[..m])
  {
    var r := DecodeChar(b);
    if StartsWell(b) {
      var c :| EncodeChar(c) <= b;
      var n := |EncodeChar(c)|;
      CharRoundTrip(c, b[n..]);
      assert b == EncodeChar(c) + b[n..];
    } else {
      AcceptedIsEncoded(b);
      assert EncodeChar(r.0) == b[..r.1] ==> EncodeChar(r.0) <= b;
      hide DecodeChar, EncodeChar, CanStart;
      StartsAre(b, r.1);
      forall m | r.1 < m <= |b| ensures !CanStart(b[..m]) {
        StartsAre(b, m);
      }
    }
  }
}
