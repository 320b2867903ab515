/**
 * The base64 encoding that `Buffer.toString('base64')` produces: the alphabet
 * and `=` padding of section 4 of RFC 4648. A decoder that inverts it shows
 * the encoding loses nothing.
 */
module Base64 {
  import opened Wrappers

  /** An octet. */
  type Byte = b: int | 0 <= b < 256

  /** A six-bit base64 value. */
  type Sextet = v: int | 0 <= v < 64

  /** The padding character of section 4 of RFC 4648. */
  const Pad: char := '='

  /** The character of value `v` in the base64 alphabet `A-Z a-z 0-9 + /`. */
  function Digit(v: Sextet): (c: char)
    ensures c != Pad
  {
    if v < 26 then ('A' as int + v) as char
    else if v < 52 then ('a' as int + (v - 26)) as char
    else if v < 62 then ('0' as int + (v - 52)) as char
    else if v == 62 then '+'
    else '/'
  }

  /** The value of an alphabet character, or None for any other character (`=` included). */
  function Value(c: char): (r: Option<Sextet>)
    ensures r.Some? ==> Digit(r.value) == c
  {
    if 'A' <= c <= 'Z' then Some(c as int - 'A' as int)
    else if 'a' <= c <= 'z' then Some(c as int - 'a' as int + 26)
    else if '0' <= c <= '9' then Some(c as int - '0' as int + 52)
    else if c == '+' then Some(62)
    else if c == '/' then Some(63)
    else None
  }

  /** Every digit decodes to its own value. */
  lemma ValueOfDigit(v: Sextet)
    ensures Value(Digit(v)) == Some(v)
  {
  }

  /** A character of an encoded text: an alphabet character or the pad. */
  predicate IsBase64Char(c: char) {
    Value(c).Some? || c == Pad
  }

  /** The first byte of a group: six bits of `v0`, two of `v1`. */
  function Byte0(v0: Sextet, v1: Sextet): Byte { v0 * 4 + v1 / 16 }

  /** The second byte of a group: four bits of `v1`, four of `v2`. */
  function Byte1(v1: Sextet, v2: Sextet): Byte { v1 % 16 * 16 + v2 / 4 }

  /** The third byte of a group: two bits of `v2`, six of `v3`. */
  function Byte2(v2: Sextet, v3: Sextet): Byte { v2 % 4 * 64 + v3 }

  /** The sextets of a group of three bytes recombine into the same bytes. */
  lemma GroupBits(b0: Byte, b1: Byte, b2: Byte)
    ensures Byte0(b0 / 4, b0 % 4 * 16 + b1 / 16) == b0
    ensures Byte1(b0 % 4 * 16 + b1 / 16, b1 % 16 * 4 + b2 / 64) == b1
    ensures Byte2(b1 % 16 * 4 + b2 / 64, b2 % 64) == b2
    ensures (b0 % 4 * 16) % 16 == 0 && (b1 % 16 * 4) % 4 == 0
    ensures Byte0(b0 / 4, b0 % 4 * 16) == b0
    ensures Byte1(b0 % 4 * 16 + b1 / 16, b1 % 16 * 4) == b1
  {
    var h0, l0 := b0 / 4, b0 % 4;
    var h1, l1 := b1 / 16, b1 % 16;
    var h2, l2 := b2 / 64, b2 % 64;
    assert (l0 * 16 + h1) / 16 == l0 && (l0 * 16 + h1) % 16 == h1;
    assert (l1 * 4 + h2) / 4 == l1 && (l1 * 4 + h2) % 4 == h2;
    assert (l0 * 16) / 16 == l0 && (l0 * 16) % 16 == 0;
    assert (l1 * 4) / 4 == l1 && (l1 * 4) % 4 == 0;
  }

  /** The four characters for one group of three bytes. */
  function EncodeGroup(b0: Byte, b1: Byte, b2: Byte): string {
    [Digit(b0 / 4), Digit(b0 % 4 * 16 + b1 / 16), Digit(b1 % 16 * 4 + b2 / 64), Digit(b2 % 64)]
  }

  /**
   * The encoding: each group of three bytes becomes four characters; a final
   * group of one or two bytes is completed with zero bits and padded with `=`
   * to four characters.
   */
  function Encode(bs: seq<Byte>): (r: string)
    ensures |r| == (|bs| + 2) / 3 * 4
    decreases |bs|
  {
    if |bs| == 0 then ""
    else if |bs| == 1 then [Digit(bs[0] / 4), Digit(bs[0] % 4 * 16), Pad, Pad]
    else if |bs| == 2 then [Digit(bs[0] / 4), Digit(bs[0] % 4 * 16 + bs[1] / 16), Digit(bs[1] % 16 * 4), Pad]
    else EncodeGroup(bs[0], bs[1], bs[2]) + Encode(bs[3..])
  }

  /** Every digit is a character of an encoded text. */
  lemma DigitIsBase64Char(v: Sextet)
    ensures IsBase64Char(Digit(v))
  {
    ValueOfDigit(v);
  }

  /** Every character of an encoding is an alphabet character or the pad. */
  lemma {:induction false} EncodeAlphabet(bs: seq<Byte>)
    ensures forall k :: 0 <= k < |Encode(bs)| ==> IsBase64Char(Encode(bs)[k])
    decreases |bs|
  {
    if |bs| == 1 {
      DigitIsBase64Char(bs[0] / 4);
      DigitIsBase64Char(bs[0] % 4 * 16);
    } else if |bs| == 2 {
      DigitIsBase64Char(bs[0] / 4);
      DigitIsBase64Char(bs[0] % 4 * 16 + bs[1] / 16);
      DigitIsBase64Char(bs[1] % 16 * 4);
    } else if |bs| >= 3 {
      var g, t := EncodeGroup(bs[0], bs[1], bs[2]), Encode(bs[3..]);
      DigitIsBase64Char(bs[0] / 4);
      DigitIsBase64Char(bs[0] % 4 * 16 + bs[1] / 16);
      DigitIsBase64Char(bs[1] % 16 * 4 + bs[2] / 64);
      DigitIsBase64Char(bs[2] % 64);
      EncodeAlphabet(bs[3..]);
      assert Encode(bs) == g + t;
      forall k | 0 <= k < |g + t| ensures IsBase64Char((g + t)[k]) {
        if k >= 4 {
          assert (g + t)[k] == t[k - 4];
        }
      }
    }
  }

  /**
   * One group of four characters: three bytes, or, in the last group only,
   * one byte before `==` or two before `=`. The bits the padding drops must
   * be zero.
   */
  function DecodeQuad(c0: char, c1: char, c2: char, c3: char, last: bool): (r: Option<seq<Byte>>)
    ensures r.Some? ==> 1 <= |r.value| <= 3
    ensures r.Some? && !last ==> |r.value| == 3
  {
    var v0, v1, v2, v3 := Value(c0), Value(c1), Value(c2), Value(c3);
    if v0.None? || v1.None? then None
    else if last && c2 == Pad && c3 == Pad then
      if v1.value % 16 == 0 then Some([Byte0(v0.value, v1.value)]) else None
    else if v2.None? then None
    else if last && c3 == Pad then
      if v2.value % 4 == 0 then Some([Byte0(v0.value, v1.value), Byte1(v1.value, v2.value)]) else None
    else if v3.None? then None
    else Some([Byte0(v0.value, v1.value), Byte1(v1.value, v2.value), Byte2(v2.value, v3.value)])
  }

  /**
   * Decoding of a padded text: groups of four characters, where only the last
   * may carry padding. Anything else is rejected.
   */
  function Decode(s: string): (r: Option<seq<Byte>>)
    ensures r.Some? ==> |r.value| * 4 <= |s| * 3
    decreases |s|
  {
    if |s| == 0 then Some([])
    else if |s| < 4 then None
    else
      match DecodeQuad(s[0], s[1], s[2], s[3], |s| == 4)
      case None => None
      case Some(group) =>
        if |s| == 4 then Some(group)
        else
          match Decode(s[4..])
          case None => None
          case Some(rest) =>
            Some(group + rest)
  }

  /** A text whose first group and the rest both decode decodes to the two joined. */
  lemma DecodeGroupThen(s: string, head: seq<Byte>, rest: seq<Byte>)
    requires |s| >= 4
    requires DecodeQuad(s[0], s[1], s[2], s[3], |s| == 4) == Some(head)
    requires Decode(s[4..]) == Some(rest)
    ensures Decode(s) == Some(head + rest)
  {
    if |s| == 4 {
      assert s[4..] == [];
      assert head + rest == head;
    }
  }

  /** A final group of one byte, `xx==`, decodes to that byte. */
  lemma DecodeOneByte(b0: Byte)
    ensures Decode(Encode([b0])) == Some([b0])
  {
    var d0: Sextet, d1: Sextet := b0 / 4, b0 % 4 * 16;
    var s := Encode([b0]);
    assert s == [Digit(d0), Digit(d1), Pad, Pad];
    ValueOfDigit(d0);
    ValueOfDigit(d1);
    GroupBits(b0, 0, 0);
  }

  /** A final group of two bytes, `xxx=`, decodes to those bytes. */
  lemma DecodeTwoBytes(b0: Byte, b1: Byte)
    ensures Decode(Encode([b0, b1])) == Some([b0, b1])
  {
    var d0: Sextet, d1: Sextet, d2: Sextet := b0 / 4, b0 % 4 * 16 + b1 / 16, b1 % 16 * 4;
    var s := Encode([b0, b1]);
    assert s == [Digit(d0), Digit(d1), Digit(d2), Pad];
    ValueOfDigit(d0);
    ValueOfDigit(d1);
    ValueOfDigit(d2);
    GroupBits(b0, b1, 0);
  }

  /** Decoding an encoded byte sequence gives it back. */
  lemma {:induction false} DecodeEncode(bs: seq<Byte>)
    ensures Decode(Encode(bs)) == Some(bs)
    decreases |bs|
  {
    if |bs| == 0 {
    } else if |bs| == 1 {
      assert bs == [bs[0]];
      DecodeOneByte(bs[0]);
    } else if |bs| == 2 {
      assert bs == [bs[0], bs[1]];
      DecodeTwoBytes(bs[0], bs[1]);
    } else {
      var rest := bs[3..];
      assert bs == [bs[0], bs[1], bs[2]] + rest;
      DecodeEncode(rest);
      DecodeGroupThenRest(bs[0], bs[1], bs[2], rest);
    }
  }

  /** The four characters of a full group decode to that group's three bytes. */
  lemma DecodeGroupValues(b0: Byte, b1: Byte, b2: Byte, last: bool)
    ensures var g := EncodeGroup(b0, b1, b2);
      DecodeQuad(g[0], g[1], g[2], g[3], last) == Some([b0, b1, b2])
  {
    ValueOfDigit(b0 / 4);
    ValueOfDigit(b0 % 4 * 16 + b1 / 16);
    ValueOfDigit(b1 % 16 * 4 + b2 / 64);
    ValueOfDigit(b2 % 64);
    GroupBits(b0, b1, b2);
  }

  /** The inductive step of `DecodeEncode`: a full first group, then the rest. */
  lemma DecodeGroupThenRest(b0: Byte, b1: Byte, b2: Byte, rest: seq<Byte>)
    requires Decode(Encode(rest)) == Some(rest)
    ensures Decode(Encode([b0, b1, b2] + rest)) == Some([b0, b1, b2] + rest)
  {
    var bs := [b0, b1, b2] + rest;
    assert bs[0] == b0 && bs[1] == b1 && bs[2] == b2 && bs[3..] == rest;
    var g := EncodeGroup(b0, b1, b2);
    var s := Encode(bs);
    assert s == g + Encode(rest);
    DecodeGroupValues(b0, b1, b2, |s| == 4);
    assert s[0] == g[0] && s[1] == g[1] && s[2] == g[2] && s[3] == g[3];
    assert s[4..] == Encode(rest);
    DecodeGroupThen(s, [b0, b1, b2], rest);
  }

  /** Different byte sequences have different encodings. */
  lemma EncodeInjective(a: seq<Byte>, b: seq<Byte>)
    requires Encode(a) == Encode(b)
    ensures a == b
  {
    DecodeEncode(a);
    DecodeEncode(b);
  }

  /** The bytes of the text `body` encode as `Ym9keQ==`. */
  lemma EncodeBody()
    ensures Encode([98, 111, 100, 121]) == "Ym9keQ=="
  {
    var bs: seq<Byte> := [98, 111, 100, 121];
    assert Encode(bs) == EncodeGroup(98, 111, 100) + Encode(bs[3..]);
    assert bs[3..] == [121];
    assert Digit(24) == 'Y' && Digit(38) == 'm' && Digit(61) == '9' && Digit(36) == 'k';
    assert EncodeGroup(98, 111, 100) == "Ym9k";
    assert Digit(30) == 'e' && Digit(16) == 'Q';
    assert Encode([121]) == "eQ==";
  }
}
