/** UTF-8 as `str::as_bytes` writes it and `String::from_utf8` checks it: the
    well-formed byte sequences of table 3-7 of the Unicode standard. A Dafny
    `char` is a Unicode scalar value, as a Rust `char` is. */
module Utf8 {
  import opened Prelude

  /** The encoding of one scalar value: one to four bytes. */
  function EncodeScalar(c: char): (r: seq<Byte>)
    ensures 1 <= |r| <= 4
  {
    var n := c as int;
    if n < 0x80 then [n]
    else if n < 0x800 then [0xC0 + n / 64, 0x80 + n % 64]
    else if n < 0x10000 then [0xE0 + n / 4096, 0x80 + (n / 64) % 64, 0x80 + n % 64]
    else [0xF0 + n / 262144, 0x80 + (n / 4096) % 64, 0x80 + (n / 64) % 64, 0x80 + n % 64]
  }

  /** `str::as_bytes`. */
  function Encode(s: string): (r: seq<Byte>)
    ensures |s| <= |r| <= 4 * |s|
  {
    if s == [] then [] else EncodeScalar(s[0]) + Encode(s[1..])
  }

  predicate IsContinuation(b: Byte) {
    0x80 <= b <= 0xBF
  }

  /** The scalar value that starts `b`, with the number of bytes it takes,
      or `None` when `b` does not start with a well-formed sequence. */
  function DecodeFirst(b: seq<Byte>): (r: Option<(char, nat)>)
    requires b != []
    ensures r.Some? ==> 1 <= r.value.1 <= |b|
  {
    var b0: int := b[0];
    if b0 < 0x80 then
      Some((b0 as char, 1))
    else if 0xC2 <= b0 <= 0xDF then
      if |b| >= 2 && IsContinuation(b[1]) then
        Some((Value2(b0, b[1]) as char, 2))
      else None
    else if 0xE0 <= b0 <= 0xEF then
      var lo := if b0 == 0xE0 then 0xA0 else 0x80;
      var hi := if b0 == 0xED then 0x9F else 0xBF;
      if |b| >= 3 && lo <= b[1] <= hi && IsContinuation(b[2]) then
        Some((Value3(b0, b[1], b[2]) as char, 3))
      else None
    else if 0xF0 <= b0 <= 0xF4 then
      var lo := if b0 == 0xF0 then 0x90 else 0x80;
      var hi := if b0 == 0xF4 then 0x8F else 0xBF;
      if |b| >= 4 && lo <= b[1] <= hi && IsContinuation(b[2]) && IsContinuation(b[3]) then
        Some((Value4(b0, b[1], b[2], b[3]) as char, 4))
      else None
    else None
  }

  /** The scalar value carried by a two-, three- or four-byte sequence. */
  function Value2(b0: int, b1: int): (n: int)
    requires 0xC2 <= b0 <= 0xDF && 0x80 <= b1 <= 0xBF
    ensures 0x80 <= n < 0x800
  {
    (b0 - 0xC0) * 64 + (b1 - 0x80)
  }

  function Value3(b0: int, b1: int, b2: int): (n: int)
    requires 0xE0 <= b0 <= 0xEF && 0x80 <= b1 <= 0xBF && 0x80 <= b2 <= 0xBF
    requires b0 == 0xE0 ==> b1 >= 0xA0
    requires b0 == 0xED ==> b1 <= 0x9F
    ensures 0x800 <= n < 0x10000 && !(0xD800 <= n < 0xE000)
  {
    (b0 - 0xE0) * 4096 + (b1 - 0x80) * 64 + (b2 - 0x80)
  }

  function Value4(b0: int, b1: int, b2: int, b3: int): (n: int)
    requires 0xF0 <= b0 <= 0xF4 && 0x80 <= b1 <= 0xBF && 0x80 <= b2 <= 0xBF && 0x80 <= b3 <= 0xBF
    requires b0 == 0xF0 ==> b1 >= 0x90
    requires b0 == 0xF4 ==> b1 <= 0x8F
    ensures 0x10000 <= n < 0x110000
  {
    (b0 - 0xF0) * 262144 + (b1 - 0x80) * 4096 + (b2 - 0x80) * 64 + (b3 - 0x80)
  }

  /** `String::from_utf8`: `None` exactly when the bytes are not UTF-8. */
  function Decode(b: seq<Byte>): Option<string>
    decreases |b|
  {
    if b == [] then Some([])
    else match DecodeFirst(b)
      case None => None
      case Some((c, k)) =>
        match Decode(b[k..])
        case None => None
        case Some(s) => Some([c] + s)
  }

  // Splitting a scalar value into 6-bit groups and putting it back together.

  lemma Groups2(n: int)
    requires 0x80 <= n < 0x800
    ensures 0xC2 <= 0xC0 + n / 64 <= 0xDF
    ensures Value2(0xC0 + n / 64, 0x80 + n % 64) == n
  {
  }

  lemma Groups3(n: int)
    requires 0x800 <= n < 0x10000 && !(0xD800 <= n < 0xE000)
    ensures var b0, b1 := 0xE0 + n / 4096, 0x80 + (n / 64) % 64;
      && 0xE0 <= b0 <= 0xEF
      && (b0 == 0xE0 ==> b1 >= 0xA0)
      && (b0 == 0xED ==> b1 <= 0x9F)
      && Value3(b0, b1, 0x80 + n % 64) == n
  {
    var q := n / 64;
    assert q / 64 == n / 4096;
  }

  lemma Groups4(n: int)
    requires 0x10000 <= n < 0x110000
    ensures var b0, b1 := 0xF0 + n / 262144, 0x80 + (n / 4096) % 64;
      && 0xF0 <= b0 <= 0xF4
      && (b0 == 0xF0 ==> b1 >= 0x90)
      && (b0 == 0xF4 ==> b1 <= 0x8F)
      && Value4(b0, b1, 0x80 + (n / 64) % 64, 0x80 + n % 64) == n
  {
    var q := n / 64;
    var h := q / 64;
    assert h == n / 4096;
    assert h / 64 == n / 262144;
  }

  lemma Ungroup2(b0: int, b1: int)
    requires 0xC2 <= b0 <= 0xDF && 0x80 <= b1 <= 0xBF
    ensures Value2(b0, b1) / 64 == b0 - 0xC0 && Value2(b0, b1) % 64 == b1 - 0x80
  {
  }

  lemma Ungroup3(b0: int, b1: int, b2: int)
    requires 0xE0 <= b0 <= 0xEF && 0x80 <= b1 <= 0xBF && 0x80 <= b2 <= 0xBF
    requires b0 == 0xE0 ==> b1 >= 0xA0
    requires b0 == 0xED ==> b1 <= 0x9F
    ensures var n := Value3(b0, b1, b2);
      n / 4096 == b0 - 0xE0 && (n / 64) % 64 == b1 - 0x80 && n % 64 == b2 - 0x80
  {
    var n := Value3(b0, b1, b2);
    assert n / 64 == (b0 - 0xE0) * 64 + (b1 - 0x80);
  }

  lemma Ungroup4(b0: int, b1: int, b2: int, b3: int)
    requires 0xF0 <= b0 <= 0xF4 && 0x80 <= b1 <= 0xBF && 0x80 <= b2 <= 0xBF && 0x80 <= b3 <= 0xBF
    requires b0 == 0xF0 ==> b1 >= 0x90
    requires b0 == 0xF4 ==> b1 <= 0x8F
    ensures var n := Value4(b0, b1, b2, b3);
      && n / 262144 == b0 - 0xF0 && (n / 4096) % 64 == b1 - 0x80
      && (n / 64) % 64 == b2 - 0x80 && n % 64 == b3 - 0x80
  {
    var n := Value4(b0, b1, b2, b3);
    assert n / 64 == (b0 - 0xF0) * 4096 + (b1 - 0x80) * 64 + (b2 - 0x80);
    assert n / 4096 == (b0 - 0xF0) * 64 + (b1 - 0x80);
  }

  lemma DecodeFirstOfEncoded(c: char, rest: seq<Byte>)
    ensures DecodeFirst(EncodeScalar(c) + rest) == Some((c, |EncodeScalar(c)|))
  {
    var n := c as int;
    var b := EncodeScalar(c) + rest;
    if n < 0x80 {
    } else if n < 0x800 {
      Groups2(n);
    } else if n < 0x10000 {
      Groups3(n);
    } else {
      Groups4(n);
    }
  }

  lemma EncodedScalarOfDecoded(b: seq<Byte>)
    requires b != [] && DecodeFirst(b).Some?
    ensures EncodeScalar(DecodeFirst(b).value.0) == b[..DecodeFirst(b).value.1]
  {
    var b0: int := b[0];
    if b0 < 0x80 {
    } else if b0 <= 0xDF {
      Ungroup2(b0, b[1]);
    } else if b0 <= 0xEF {
      Ungroup3(b0, b[1], b[2]);
    } else {
      Ungroup4(b0, b[1], b[2], b[3]);
    }
  }

  /** Decoding what was encoded gives the string back. */
  lemma {:induction false} DecodeEncode(s: string)
    ensures Decode(Encode(s)) == Some(s)
  {
    if s != [] {
      var e := EncodeScalar(s[0]);
      DecodeFirstOfEncoded(s[0], Encode(s[1..]));
      assert (e + Encode(s[1..]))[|e|..] == Encode(s[1..]);
      DecodeEncode(s[1..]);
      assert [s[0]] + s[1..] == s;
    }
  }

  /** Whatever decodes re-encodes to the same bytes: the decoder accepts
      nothing but encodings. */
  lemma {:induction false} EncodeDecode(b: seq<Byte>)
    requires Decode(b).Some?
    ensures Encode(Decode(b).value) == b
    decreases |b|
  {
    if b != [] {
      DecodeSplit(b);
      var k := DecodeFirst(b).value.1;
      EncodedScalarOfDecoded(b);
      EncodeDecode(b[k..]);
      EncodeDecodeStep(b, DecodeFirst(b).value.0, k, Decode(b[k..]).value, Decode(b).value);
    }
  }

  /** The encoding of a scalar value followed by the encoding of the rest. */
  lemma EncodeDecodeStep(b: seq<Byte>, c: char, k: nat, rest: string, s: string)
    requires k <= |b| && s == [c] + rest
    requires EncodeScalar(c) == b[..k] && Encode(rest) == b[k..]
    ensures Encode(s) == b
  {
    EncodeCons(c, rest);
    assert b == b[..k] + b[k..];
  }

  /** A decoded text is the first scalar value followed by the decoding of
      the bytes after it. */
  lemma DecodeSplit(b: seq<Byte>)
    requires b != [] && Decode(b).Some?
    ensures DecodeFirst(b).Some? && Decode(b[DecodeFirst(b).value.1..]).Some?
    ensures Decode(b).value == [DecodeFirst(b).value.0] + Decode(b[DecodeFirst(b).value.1..]).value
  {
  }

  lemma EncodeCons(c: char, rest: string)
    ensures Encode([c] + rest) == EncodeScalar(c) + Encode(rest)
  {
    assert ([c] + rest)[1..] == rest;
  }
}
