/**
  * Strict UTF-8 (RFC 3629, and the well-formed byte sequences of table 3-7 of
  * the Unicode Standard), as Python's `bytes.decode('utf-8')` accepts it:
  * no overlong forms, no encoded surrogates, nothing above U+10FFFF.
  */
module Utf8 {
  import opened Outcomes

  newtype byte = x: int | 0 <= x < 256

  predicate IsContinuation(b: byte) {
    0x80 <= b <= 0xBF
  }

  /** The encoding of one scalar value: 1 to 4 bytes. */
  function EncodeChar(c: char): (bs: seq<byte>)
    ensures 1 <= |bs| <= 4
  {
    var n := c as int;
    if n < 0x80 then [n as byte]
    else if n < 0x800 then [(0xC0 + n / 64) as byte, (0x80 + n % 64) as byte]
    else if n < 0x10000 then
      [(0xE0 + n / 4096) as byte, (0x80 + n / 64 % 64) as byte, (0x80 + n % 64) as byte]
    else
      [(0xF0 + n / 262144) as byte, (0x80 + n / 4096 % 64) as byte,
       (0x80 + n / 64 % 64) as byte, (0x80 + n % 64) as byte]
  }

  function Encode(s: string): seq<byte>
    decreases |s|
  {
    if s == [] then [] else EncodeChar(s[0]) + Encode(s[1..])
  }

  /** The second byte a three-byte lead allows (it excludes overlong forms and surrogates). */
  predicate SecondOf3(lead: byte, b: byte) {
    if lead == 0xE0 then 0xA0 <= b <= 0xBF
    else if lead == 0xED then 0x80 <= b <= 0x9F
    else IsContinuation(b)
  }

  /** The second byte a four-byte lead allows (it excludes overlong forms and values above U+10FFFF). */
  predicate SecondOf4(lead: byte, b: byte) {
    if lead == 0xF0 then 0x90 <= b <= 0xBF
    else if lead == 0xF4 then 0x80 <= b <= 0x8F
    else IsContinuation(b)
  }

  /** The first character of `b` and the number of bytes it takes, or None when `b` does not start well-formed. */
  function DecodeFirst(b: seq<byte>): Option<(char, nat)>
    requires |b| > 0
  {
    var b0 := b[0] as int;
    if b0 < 0x80 then Some((b0 as char, 1))
    else if 0xC2 <= b0 <= 0xDF then
      if |b| >= 2 && IsContinuation(b[1]) then
        Some((((b0 - 0xC0) * 64 + (b[1] as int - 0x80)) as char, 2))
      else None
    else if 0xE0 <= b0 <= 0xEF then
      if |b| >= 3 && SecondOf3(b[0], b[1]) && IsContinuation(b[2]) then
        Some((((b0 - 0xE0) * 4096 + (b[1] as int - 0x80) * 64 + (b[2] as int - 0x80)) as char, 3))
      else None
    else if 0xF0 <= b0 <= 0xF4 then
      if |b| >= 4 && SecondOf4(b[0], b[1]) && IsContinuation(b[2]) && IsContinuation(b[3]) then
        Some((((b0 - 0xF0) * 262144 + (b[1] as int - 0x80) * 4096
               + (b[2] as int - 0x80) * 64 + (b[3] as int - 0x80)) as char, 4))
      else None
    else None
  }

  /** `b.decode('utf-8')`: the decoded text, or None where Python raises UnicodeDecodeError. */
  function Decode(b: seq<byte>): Option<string>
    decreases |b|
  {
    if b == [] then Some("")
    else match DecodeFirst(b)
      case None => None
      case Some((c, k)) =>
        if k <= |b| then
          match Decode(b[k..])
          case None => None
          case Some(rest) => Some([c] + rest)
        else None
  }

  lemma DivMod64(q: int, r: int)
    requires 0 <= r < 64
    ensures (q * 64 + r) / 64 == q && (q * 64 + r) % 64 == r
  {
  }

  lemma DivMod4096(q: int, r: int)
    requires 0 <= r < 4096
    ensures (q * 4096 + r) / 4096 == q
  {
  }

  lemma DivMod262144(q: int, r: int)
    requires 0 <= r < 262144
    ensures (q * 262144 + r) / 262144 == q
  {
  }

  /** The base-64 digits of a three-digit number. */
  lemma Digits3(q: int, m: int, r: int)
    requires 0 <= m < 64 && 0 <= r < 64
    ensures var n := q * 4096 + m * 64 + r;
      n / 4096 == q && n / 64 % 64 == m && n % 64 == r
  {
    var n := q * 4096 + m * 64 + r;
    assert n == (q * 64 + m) * 64 + r;
    DivMod64(q * 64 + m, r);
    DivMod64(q, m);
    assert n == q * 4096 + (m * 64 + r);
    DivMod4096(q, m * 64 + r);
  }

  /** The base-64 digits of a four-digit number. */
  lemma Digits4(t: int, q: int, m: int, r: int)
    requires 0 <= q < 64 && 0 <= m < 64 && 0 <= r < 64
    ensures var n := t * 262144 + q * 4096 + m * 64 + r;
      n / 262144 == t && n / 4096 % 64 == q && n / 64 % 64 == m && n % 64 == r
  {
    var n := t * 262144 + q * 4096 + m * 64 + r;
    assert n == (t * 64 + q) * 4096 + m * 64 + r;
    Digits3(t * 64 + q, m, r);
    DivMod64(t, q);
    assert n == t * 262144 + (q * 4096 + m * 64 + r);
    DivMod262144(t, q * 4096 + m * 64 + r);
  }

  /** A non-negative number is recovered from the digits `EncodeChar` takes apart. */
  lemma DigitsOf(n: int)
    requires 0 <= n
    ensures n == n / 4096 * 4096 + n / 64 % 64 * 64 + n % 64
    ensures n == n / 262144 * 262144 + n / 4096 % 64 * 4096 + n / 64 % 64 * 64 + n % 64
  {
    var a, lo := n / 64, n % 64;
    var c, mid := a / 64, a % 64;
    var t, hi := c / 64, c % 64;
    assert n == c * 4096 + (mid * 64 + lo);
    DivMod4096(c, mid * 64 + lo);
    assert n == t * 262144 + (hi * 4096 + mid * 64 + lo);
    DivMod262144(t, hi * 4096 + mid * 64 + lo);
  }

  lemma DecodeFirstOfThree(c: char, rest: seq<byte>)
    requires 0x800 <= c as int < 0x10000
    ensures DecodeFirst(EncodeChar(c) + rest) == Some((c, 3))
  {
    var n := c as int;
    var b := EncodeChar(c) + rest;
    var hi, mid, lo := n / 4096, n / 64 % 64, n % 64;
    DigitsOf(n);
    assert b[0] as int == 0xE0 + hi && b[1] as int == 0x80 + mid && b[2] as int == 0x80 + lo;
    assert hi == 0 ==> mid >= 0x20;
    assert hi == 0xD ==> mid < 0x20;
    assert SecondOf3(b[0], b[1]);
  }

  lemma DecodeFirstOfFour(c: char, rest: seq<byte>)
    requires 0x10000 <= c as int
    ensures DecodeFirst(EncodeChar(c) + rest) == Some((c, 4))
  {
    var n := c as int;
    var b := EncodeChar(c) + rest;
    var top, hi, mid, lo := n / 262144, n / 4096 % 64, n / 64 % 64, n % 64;
    DigitsOf(n);
    assert b[0] as int == 0xF0 + top && b[1] as int == 0x80 + hi;
    assert b[2] as int == 0x80 + mid && b[3] as int == 0x80 + lo;
    assert top == 0 ==> hi >= 0x10;
    assert top == 4 ==> hi < 0x10;
    assert SecondOf4(b[0], b[1]);
  }

  /** Decoding the encoding of a character gives that character back and consumes exactly its bytes. */
  lemma DecodeFirstOfEncodeChar(c: char, rest: seq<byte>)
    ensures DecodeFirst(EncodeChar(c) + rest) == Some((c, |EncodeChar(c)|))
  {
    var n := c as int;
    if n < 0x80 {
    } else if n < 0x800 {
      DivMod64(n / 64, n % 64);
    } else if n < 0x10000 {
      DecodeFirstOfThree(c, rest);
    } else {
      DecodeFirstOfFour(c, rest);
    }
  }

  /** A two-byte sequence `DecodeFirst` accepts is the encoding of its character. */
  lemma EncodeOfTwo(b: seq<byte>)
    requires |b| > 0 && 0x80 <= b[0] <= 0xDF && DecodeFirst(b).Some?
    ensures DecodeFirst(b).value.1 == 2 <= |b|
    ensures EncodeChar(DecodeFirst(b).value.0) == b[..2]
  {
    DivMod64(b[0] as int - 0xC0, b[1] as int - 0x80);
  }

  /** A three-byte sequence `DecodeFirst` accepts is the encoding of its character. */
  lemma EncodeOfThree(b: seq<byte>)
    requires |b| > 0 && 0xE0 <= b[0] <= 0xEF && DecodeFirst(b).Some?
    ensures DecodeFirst(b).value.1 == 3 <= |b|
    ensures EncodeChar(DecodeFirst(b).value.0) == b[..3]
  {
    Digits3(b[0] as int - 0xE0, b[1] as int - 0x80, b[2] as int - 0x80);
  }

  /** A four-byte sequence `DecodeFirst` accepts is the encoding of its character. */
  lemma EncodeOfFour(b: seq<byte>)
    requires |b| > 0 && 0xF0 <= b[0] && DecodeFirst(b).Some?
    ensures DecodeFirst(b).value.1 == 4 <= |b|
    ensures EncodeChar(DecodeFirst(b).value.0) == b[..4]
  {
    Digits4(b[0] as int - 0xF0, b[1] as int - 0x80, b[2] as int - 0x80, b[3] as int - 0x80);
  }

  /** What `DecodeFirst` accepts is exactly the encoding of the character it returns. */
  lemma EncodeCharOfDecodeFirst(b: seq<byte>)
    requires |b| > 0 && DecodeFirst(b).Some?
    ensures DecodeFirst(b).value.1 <= |b|
    ensures EncodeChar(DecodeFirst(b).value.0) == b[..DecodeFirst(b).value.1]
  {
    if b[0] < 0x80 {
    } else if b[0] <= 0xDF {
      EncodeOfTwo(b);
    } else if b[0] <= 0xEF {
      EncodeOfThree(b);
    } else {
      EncodeOfFour(b);
    }
  }

  /** Every string survives an encode/decode round trip. */
  lemma {:induction false} DecodeEncode(s: string)
    ensures Decode(Encode(s)) == Some(s)
    decreases |s|
  {
    if s != [] {
      var e := EncodeChar(s[0]);
      DecodeFirstOfEncodeChar(s[0], Encode(s[1..]));
      assert (e + Encode(s[1..]))[|e|..] == Encode(s[1..]);
      DecodeEncode(s[1..]);
      assert s == [s[0]] + s[1..];
    }
  }

  /** One step of `Decode`: a decodable sequence is its first character followed by the decoding of the rest. */
  lemma DecodeStep(b: seq<byte>)
    requires b != [] && Decode(b).Some?
    ensures DecodeFirst(b).Some? && DecodeFirst(b).value.1 <= |b|
    ensures Decode(b[DecodeFirst(b).value.1..]).Some?
    ensures Decode(b).value == [DecodeFirst(b).value.0] + Decode(b[DecodeFirst(b).value.1..]).value
  {
  }

  /** Re-encoding a character and a tail whose encodings are the two parts of `b` gives `b`. */
  lemma EncodeCons(b: seq<byte>, k: nat, c: char, rest: string)
    requires k <= |b| && EncodeChar(c) == b[..k] && Encode(rest) == b[k..]
    ensures Encode([c] + rest) == b
  {
    assert ([c] + rest)[1..] == rest;
    assert b == b[..k] + b[k..];
  }

  /** Decoding succeeds only on encodings: what is accepted is re-encoded to the same bytes. */
  lemma {:induction false} EncodeDecode(b: seq<byte>)
    requires Decode(b).Some?
    ensures Encode(Decode(b).value) == b
    decreases |b|
  {
    if b != [] {
      DecodeStep(b);
      EncodeCharOfDecodeFirst(b);
      var k := DecodeFirst(b).value.1;
      EncodeDecode(b[k..]);
      EncodeCons(b, k, DecodeFirst(b).value.0, Decode(b[k..]).value);
    }
  }
}
