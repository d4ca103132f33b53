/** Base 64 encoding with the standard alphabet and padding, as section 4 of
    RFC 4648 defines it, in the form of the `base64` crate's `STANDARD` engine:
    encoding always pads to a multiple of four characters, and decoding accepts
    only canonical input (padding present, no stray characters, and the unused
    low bits of the last group equal to zero). */
module Base64 {
  import opened Prelude

  type Sextet = v: int | 0 <= v < 64

  /** Table 1 of RFC 4648: the value encoded by each of the 64 characters. */
  function SextetChar(v: Sextet): (c: char)
    ensures c != '='
  {
    if v < 26 then ('A' as int + v) as char
    else if v < 52 then ('a' as int + (v - 26)) as char
    else if v < 62 then ('0' as int + (v - 52)) as char
    else if v == 62 then '+'
    else '/'
  }

  /** The inverse of table 1; `None` for a character outside the alphabet. */
  function CharSextet(c: char): (r: Option<Sextet>)
    ensures r.Some? ==> SextetChar(r.value) == c
    ensures c == '=' ==> r == None
  {
    if 'A' <= c <= 'Z' then Some(c as int - 'A' as int)
    else if 'a' <= c <= 'z' then Some(c as int - 'a' as int + 26)
    else if '0' <= c <= '9' then Some(c as int - '0' as int + 52)
    else if c == '+' then Some(62)
    else if c == '/' then Some(63)
    else None
  }

  lemma CharOfSextet(v: Sextet)
    ensures CharSextet(SextetChar(v)) == Some(v)
  {
  }

  // ---------------------------------------------------------------------------
  // 24-bit groups

  /** Three octets as four sextets (section 4 of RFC 4648, most significant
      bits first). */
  function Sextets(b0: Byte, b1: Byte, b2: Byte): (r: (Sextet, Sextet, Sextet, Sextet))
  {
    (b0 / 4, (b0 % 4) * 16 + b1 / 16, (b1 % 16) * 4 + b2 / 64, b2 % 64)
  }

  /** Four sextets as three octets. */
  function Octets(v0: Sextet, v1: Sextet, v2: Sextet, v3: Sextet): (r: (Byte, Byte, Byte))
  {
    (v0 * 4 + v1 / 16, (v1 % 16) * 16 + v2 / 4, (v2 % 4) * 64 + v3)
  }

  lemma OctetsOfSextets(b0: Byte, b1: Byte, b2: Byte)
    ensures var (v0, v1, v2, v3) := Sextets(b0, b1, b2); Octets(v0, v1, v2, v3) == (b0, b1, b2)
  {
    var (v0, v1, v2, v3) := Sextets(b0, b1, b2);
    assert v1 / 16 == b0 % 4 && v1 % 16 == b1 / 16;
    assert v2 / 4 == b1 % 16 && v2 % 4 == b2 / 64;
  }

  lemma SextetsOfOctets(v0: Sextet, v1: Sextet, v2: Sextet, v3: Sextet)
    ensures var (b0, b1, b2) := Octets(v0, v1, v2, v3); Sextets(b0, b1, b2) == (v0, v1, v2, v3)
  {
    var (b0, b1, b2) := Octets(v0, v1, v2, v3);
    assert b0 / 4 == v0 && b0 % 4 == v1 / 16;
    assert b1 / 16 == v1 % 16 && b1 % 16 == v2 / 4;
    assert b2 / 64 == v2 % 4 && b2 % 64 == v3;
  }

  function Quad(v: (Sextet, Sextet, Sextet, Sextet)): string {
    [SextetChar(v.0), SextetChar(v.1), SextetChar(v.2), SextetChar(v.3)]
  }

  // ---------------------------------------------------------------------------
  // encoding

  /** `STANDARD.encode`: each group of three octets becomes four characters; a
      final group of one or two octets is padded with `=` to four. */
  function Encode(b: seq<Byte>): (s: string)
    ensures |s| == (|b| + 2) / 3 * 4
  {
    if |b| == 0 then []
    else if |b| == 1 then
      var q := Sextets(b[0], 0, 0);
      [SextetChar(q.0), SextetChar(q.1), '=', '=']
    else if |b| == 2 then
      var q := Sextets(b[0], b[1], 0);
      [SextetChar(q.0), SextetChar(q.1), SextetChar(q.2), '=']
    else
      assert (|b| + 2) / 3 == (|b[3..]| + 2) / 3 + 1;
      Quad(Sextets(b[0], b[1], b[2])) + Encode(b[3..])
  }

  // ---------------------------------------------------------------------------
  // decoding

  /** Four alphabet characters as three octets. */
  function DecodeQuad(q: string): Option<seq<Byte>>
    requires |q| == 4
  {
    match (CharSextet(q[0]), CharSextet(q[1]), CharSextet(q[2]), CharSextet(q[3]))
    case (Some(v0), Some(v1), Some(v2), Some(v3)) =>
      var (b0, b1, b2) := Octets(v0, v1, v2, v3);
      Some([b0, b1, b2])
    case _ => None
  }

  /** The last four characters, which may carry one or two `=`; the bits that
      the padding leaves unused must be zero. */
  function DecodeLastQuad(q: string): Option<seq<Byte>>
    requires |q| == 4
  {
    if q[2] == '=' && q[3] == '=' then
      match (CharSextet(q[0]), CharSextet(q[1]))
      case (Some(v0), Some(v1)) =>
        if v1 % 16 == 0 then Some([Octets(v0, v1, 0, 0).0]) else None
      case _ => None
    else if q[3] == '=' then
      match (CharSextet(q[0]), CharSextet(q[1]), CharSextet(q[2]))
      case (Some(v0), Some(v1), Some(v2)) =>
        if v2 % 4 == 0 then
          var (b0, b1, _) := Octets(v0, v1, v2, 0);
          Some([b0, b1])
        else None
      case _ => None
    else DecodeQuad(q)
  }

  /** `STANDARD.decode`: `None` for any input that is not canonical base 64. */
  function Decode(s: string): Option<seq<Byte>>
    decreases |s|
  {
    if |s| == 0 then Some([])
    else if |s| < 4 then None
    else if |s| == 4 then DecodeLastQuad(s)
    else
      match DecodeQuad(s[..4])
      case None => None
      case Some(group) =>
        match Decode(s[4..])
        case None => None
        case Some(rest) => Some(group + rest)
  }

  // ---------------------------------------------------------------------------
  // round trips

  lemma DecodeQuadOfGroup(b0: Byte, b1: Byte, b2: Byte)
    ensures DecodeQuad(Quad(Sextets(b0, b1, b2))) == Some([b0, b1, b2])
  {
    var q := Sextets(b0, b1, b2);
    OctetsOfSextets(b0, b1, b2);
    CharOfSextet(q.0);
    CharOfSextet(q.1);
    CharOfSextet(q.2);
    CharOfSextet(q.3);
  }

  lemma DecodeOneOctet(b0: Byte)
    ensures Decode(Encode([b0])) == Some([b0])
  {
    var q := Sextets(b0, 0, 0);
    OctetsOfSextets(b0, 0, 0);
    CharOfSextet(q.0);
    CharOfSextet(q.1);
    assert q.1 % 16 == 0;
    var s := Encode([b0]);
    assert s == [SextetChar(q.0), SextetChar(q.1), '=', '='];
  }

  lemma DecodeTwoOctets(b0: Byte, b1: Byte)
    ensures Decode(Encode([b0, b1])) == Some([b0, b1])
  {
    var q := Sextets(b0, b1, 0);
    OctetsOfSextets(b0, b1, 0);
    CharOfSextet(q.0);
    CharOfSextet(q.1);
    CharOfSextet(q.2);
    assert q.2 % 4 == 0 && q.3 == 0;
    var s := Encode([b0, b1]);
    assert s == [SextetChar(q.0), SextetChar(q.1), SextetChar(q.2), '='];
  }

  /** Decoding an encoding gives the octets back. */
  lemma {:induction false} DecodeEncode(b: seq<Byte>)
    ensures Decode(Encode(b)) == Some(b)
  {
    if |b| == 1 {
      DecodeOneOctet(b[0]);
      assert b == [b[0]];
    } else if |b| == 2 {
      DecodeTwoOctets(b[0], b[1]);
      assert b == [b[0], b[1]];
    } else if |b| >= 3 {
      var g := [b[0], b[1], b[2]];
      var head := Quad(Sextets(b[0], b[1], b[2]));
      EncodeAppend(g, b[3..]);
      assert b == g + b[3..];
      DecodeQuadOfGroup(b[0], b[1], b[2]);
      if |b| == 3 {
        assert Encode(b) == head && b == g;
        DecodeLastOfQuad(head);
      } else {
        DecodeEncode(b[3..]);
        DecodeAppend(head, Encode(b[3..]), g, b[3..]);
      }
    }
  }

  /** A leading group of three octets is encoded on its own. */
  lemma EncodeAppend(g: seq<Byte>, rest: seq<Byte>)
    requires |g| == 3
    ensures Encode(g + rest) == Quad(Sextets(g[0], g[1], g[2])) + Encode(rest)
  {
    var b := g + rest;
    assert b[..3] == g && b[3..] == rest;
  }

  /** A last group without padding is decoded as a full one. */
  lemma DecodeLastOfQuad(q: string)
    requires |q| == 4 && q[2] != '=' && q[3] != '='
    ensures Decode(q) == DecodeQuad(q)
  {
  }

  /** A leading full group is decoded on its own. */
  lemma DecodeAppend(head: string, tail: string, g: seq<Byte>, rest: seq<Byte>)
    requires |head| == 4 && DecodeQuad(head) == Some(g)
    requires |tail| >= 4 && Decode(tail) == Some(rest)
    ensures Decode(head + tail) == Some(g + rest)
  {
    var s := head + tail;
    assert s[..4] == head && s[4..] == tail;
  }

  lemma EncodeDecodedQuad(q: string)
    requires |q| == 4 && DecodeQuad(q).Some?
    ensures |DecodeQuad(q).value| == 3
    ensures var g := DecodeQuad(q).value; Quad(Sextets(g[0], g[1], g[2])) == q
  {
    var v0, v1, v2, v3 := CharSextet(q[0]).value, CharSextet(q[1]).value, CharSextet(q[2]).value, CharSextet(q[3]).value;
    SextetsOfOctets(v0, v1, v2, v3);
  }

  lemma EncodeDecodedLastQuad(q: string)
    requires |q| == 4 && DecodeLastQuad(q).Some?
    ensures 1 <= |DecodeLastQuad(q).value| <= 3
    ensures Encode(DecodeLastQuad(q).value) == q
  {
    var g := DecodeLastQuad(q).value;
    if q[2] == '=' && q[3] == '=' {
      var v0, v1 := CharSextet(q[0]).value, CharSextet(q[1]).value;
      SextetsOfOctets(v0, v1, 0, 0);
      assert q == [q[0], q[1], '=', '='];
    } else if q[3] == '=' {
      var v0, v1, v2 := CharSextet(q[0]).value, CharSextet(q[1]).value, CharSextet(q[2]).value;
      SextetsOfOctets(v0, v1, v2, 0);
      assert q == [q[0], q[1], q[2], '='];
    } else {
      EncodeDecodedQuad(q);
      assert Encode(g) == Quad(Sextets(g[0], g[1], g[2])) + Encode(g[3..]);
    }
  }

  /** Whatever decodes re-encodes to the same text: the decoder accepts exactly
      the encodings. */
  lemma {:induction false} EncodeDecode(s: string)
    requires Decode(s).Some?
    ensures Encode(Decode(s).value) == s
    decreases |s|
  {
    if |s| == 4 {
      EncodeDecodedLastQuad(s);
    } else if |s| > 4 {
      var head, tail := s[..4], s[4..];
      var g := DecodeQuad(head).value;
      var rest := Decode(tail).value;
      assert Decode(s).value == g + rest;
      EncodeDecodedQuad(head);
      EncodeDecode(tail);
      EncodeAppend(g, rest);
      assert g == [g[0], g[1], g[2]];
      assert s == head + tail;
    }
  }

  /** The test vectors of section 10 of RFC 4648. */
  lemma TestVectorF()
    ensures Encode([102]) == "Zg=="
  {
    assert Encode([102]) == [SextetChar(25), SextetChar(32), '=', '='];
  }

  lemma TestVectorFo()
    ensures Encode([102, 111]) == "Zm8="
  {
    assert Sextets(102, 111, 0) == (25, 38, 60, 0);
  }

  lemma TestVectorFoobar()
    ensures Encode([102, 111, 111, 98, 97, 114]) == "Zm9vYmFy"
  {
    assert Sextets(102, 111, 111) == (25, 38, 61, 47);
    assert Sextets(98, 97, 114) == (24, 38, 5, 50);
    assert Quad((25, 38, 61, 47)) == "Zm9v";
    assert Quad((24, 38, 5, 50)) == "YmFy";
    assert [102, 111, 111, 98, 97, 114][3..] == [98, 97, 114];
  }

  /** Input the decoder turns away: a bad length, a character outside the
      alphabet, padding in the middle, non-zero unused bits. */
  lemma Rejected()
    ensures Decode("Zg") == None
    ensures Decode("Zg=") == None
    ensures Decode("Z===") == None
    ensures Decode("Zh==") == None
    ensures Decode("Zg==Zg==") == None
    ensures Decode("Zm9v!A==") == None
  {
  }
}
