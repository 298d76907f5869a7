/** Bytes, UTF-8 well-formedness and hexadecimal digits. */
module ByteText {
  type byte = x: int | 0 <= x < 256

  type Bytes = seq<byte>

  /** A continuation byte of a multi-byte UTF-8 sequence. */
  predicate Cont(b: byte) {
    0x80 <= b < 0xC0
  }

  /** Length of the well-formed UTF-8 sequence `b` starts with, 0 when there is none (Unicode Standard,
      table 3-7). */
  function Utf8Len(b: Bytes): (n: nat)
    ensures n <= |b|
  {
    if |b| == 0 then 0
    else if b[0] < 0x80 then 1
    else if |b| >= 2 && 0xC2 <= b[0] < 0xE0 && Cont(b[1]) then 2
    else if |b| >= 3 && 0xE0 <= b[0] < 0xF0 && Cont(b[1]) && Cont(b[2])
            && (b[0] == 0xE0 ==> b[1] >= 0xA0) && (b[0] == 0xED ==> b[1] < 0xA0) then 3
    else if |b| >= 4 && 0xF0 <= b[0] < 0xF5 && Cont(b[1]) && Cont(b[2]) && Cont(b[3])
            && (b[0] == 0xF0 ==> b[1] >= 0x90) && (b[0] == 0xF4 ==> b[1] < 0x90) then 4
    else 0
  }

  predicate IsUtf8(b: Bytes) {
    |b| == 0 || (Utf8Len(b) > 0 && IsUtf8(b[Utf8Len(b)..]))
  }

  /** ASCII text in front changes nothing. */
  lemma {:induction false} AsciiThenUtf8(a: Bytes, b: Bytes)
    requires forall i :: 0 <= i < |a| ==> a[i] < 0x80
    ensures IsUtf8(a + b) <==> IsUtf8(b)
  {
    if |a| == 0 {
      assert a + b == b;
    } else {
      assert (a + b)[1..] == a[1..] + b;
      AsciiThenUtf8(a[1..], b);
    }
  }

  predicate IsHex(b: byte) {
    48 <= b <= 57 || 65 <= b <= 70 || 97 <= b <= 102
  }

  function HexDigit(b: byte): nat
    requires IsHex(b)
  {
    if b <= 57 then b - 48 else if b <= 70 then b - 55 else b - 87
  }

  const LOWER_HEX: Bytes := [48, 49, 50, 51, 52, 53, 54, 55, 56, 57, 97, 98, 99, 100, 101, 102]
  const UPPER_HEX: Bytes := [48, 49, 50, 51, 52, 53, 54, 55, 56, 57, 65, 66, 67, 68, 69, 70]

  /** The digits are those of the two tables, each standing for its place. */
  lemma HexTables(b: byte)
    ensures forall i :: 0 <= i < 16 ==> IsHex(LOWER_HEX[i]) && HexDigit(LOWER_HEX[i]) == i
    ensures forall i :: 0 <= i < 16 ==> IsHex(UPPER_HEX[i]) && HexDigit(UPPER_HEX[i]) == i
    ensures IsHex(b) <==> b in LOWER_HEX || b in UPPER_HEX
  {
    if IsHex(b) {
      assert HexDigit(b) < 16 && (LOWER_HEX[HexDigit(b)] == b || UPPER_HEX[HexDigit(b)] == b);
    }
  }

  // ----- UTF-8 as an encoding -----

  /** A Unicode scalar value. */
  type Scalar = c: nat | c < 0xD800 || 0xE000 <= c < 0x11_0000

  function EncodeScalar(c: Scalar): Bytes {
    if c < 0x80 then [c]
    else if c < 0x800 then [0xC0 + c / 64, 0x80 + c % 64]
    else if c < 0x1_0000 then [0xE0 + c / 64 / 64, 0x80 + c / 64 % 64, 0x80 + c % 64]
    else [0xF0 + c / 64 / 64 / 64, 0x80 + c / 64 / 64 % 64, 0x80 + c / 64 % 64, 0x80 + c % 64]
  }

  function EncodeText(cs: seq<Scalar>): Bytes {
    if |cs| == 0 then [] else EncodeScalar(cs[0]) + EncodeText(cs[1..])
  }

  lemma ScalarLength(c: Scalar, rest: Bytes)
    ensures Utf8Len(EncodeScalar(c) + rest) == |EncodeScalar(c)|
  {
    var b := EncodeScalar(c) + rest;
    assert forall i :: 0 <= i < |EncodeScalar(c)| ==> b[i] == EncodeScalar(c)[i];
  }

  /** The well-formed byte strings are exactly the encodings of scalar value sequences. */
  lemma {:induction false} EncodedIsUtf8(cs: seq<Scalar>)
    ensures IsUtf8(EncodeText(cs))
  {
    if |cs| > 0 {
      var rest := EncodeText(cs[1..]);
      EncodedIsUtf8(cs[1..]);
      ScalarLength(cs[0], rest);
      assert (EncodeScalar(cs[0]) + rest)[|EncodeScalar(cs[0])|..] == rest;
    }
  }

  lemma SixBits(high: nat, low: nat)
    requires low < 64
    ensures (high * 64 + low) / 64 == high && (high * 64 + low) % 64 == low
  {
  }

  lemma ScalarOf(b: Bytes) returns (c: Scalar)
    requires Utf8Len(b) > 0
    ensures EncodeScalar(c) == b[..Utf8Len(b)]
  {
    var n := Utf8Len(b);
    if n == 1 {
      c := b[0];
    } else if n == 2 {
      c := TwoBytes(b[0], b[1]);
    } else if n == 3 {
      c := ThreeBytes(b[0], b[1], b[2]);
    } else {
      c := FourBytes(b[0], b[1], b[2], b[3]);
    }
  }

  lemma TwoBytes(x: byte, y: byte) returns (c: Scalar)
    requires 0xC2 <= x < 0xE0 && Cont(y)
    ensures EncodeScalar(c) == [x, y]
  {
    var high: nat, low: nat := x - 0xC0, y - 0x80;
    SixBits(high, low);
    c := high * 64 + low;
  }

  lemma ThreeBytes(x: byte, y: byte, z: byte) returns (c: Scalar)
    requires 0xE0 <= x < 0xF0 && Cont(y) && Cont(z) && (x == 0xE0 ==> y >= 0xA0) && (x == 0xED ==> y < 0xA0)
    ensures EncodeScalar(c) == [x, y, z]
  {
    var high: nat, mid: nat, low: nat := x - 0xE0, y - 0x80, z - 0x80;
    var top: nat := high * 64 + mid;
    SixBits(high, mid);
    SixBits(top, low);
    c := top * 64 + low;
  }

  lemma FourBytes(x: byte, y: byte, z: byte, w: byte) returns (c: Scalar)
    requires 0xF0 <= x < 0xF5 && Cont(y) && Cont(z) && Cont(w) && (x == 0xF0 ==> y >= 0x90) && (x == 0xF4 ==> y < 0x90)
    ensures EncodeScalar(c) == [x, y, z, w]
  {
    var high: nat, mid: nat, third: nat, low: nat := x - 0xF0, y - 0x80, z - 0x80, w - 0x80;
    var top: nat := high * 64 + mid;
    var body: nat := top * 64 + third;
    SixBits(high, mid);
    SixBits(top, third);
    SixBits(body, low);
    c := body * 64 + low;
  }

  lemma {:induction false} Utf8IsEncoded(b: Bytes) returns (cs: seq<Scalar>)
    requires IsUtf8(b)
    ensures EncodeText(cs) == b
  {
    if |b| == 0 {
      cs := [];
    } else {
      var n := Utf8Len(b);
      var c := ScalarOf(b);
      var rest := Utf8IsEncoded(b[n..]);
      cs := [c] + rest;
      assert cs[1..] == rest && b == b[..n] + b[n..];
    }
  }
}
