/**
  java.net.URLEncoder.encode(s, "UTF-8"), by URLEncoder's own rules: ASCII
  letters, digits and . - * _ stay as they are, a space becomes '+', and every other character is
  written as its UTF-8 bytes, each as '%' and two upper-case hex digits (a
  line break included, which stays a single %0A).
  A decoder is given beside it and proved to be its inverse.
 */
module FormUrlEncoding {
  import opened Wrappers

  type Byte = b: int | 0 <= b < 256

  /** The characters URLEncoder never escapes. */
  predicate Unreserved(c: char)
  {
    ('a' <= c <= 'z') || ('A' <= c <= 'Z') || ('0' <= c <= '9') ||
    c == '.' || c == '-' || c == '*' || c == '_'
  }

  /** The characters an encoded string can be made of. */
  predicate EncodedChar(c: char)
  {
    Unreserved(c) || c == '+' || c == '%'
  }

  const HexDigits: string := "0123456789ABCDEF"

  /** The UTF-8 bytes of one Unicode scalar value. */
  function Utf8(c: char): (bs: seq<Byte>)
    ensures 1 <= |bs| <= 4
    ensures |bs| == 1 <==> c as int < 0x80
    ensures |bs| == 2 <==> 0x80 <= c as int < 0x800
    ensures |bs| == 3 <==> 0x800 <= c as int < 0x10000
    ensures |bs| == 4 <==> 0x10000 <= c as int
    ensures |bs| == 1 ==> bs[0] == c as int
  {
    var v := c as int;
    if v < 0x80 then [v]
    else if v < 0x800 then [0xC0 + v / 64, 0x80 + v % 64]
    else if v < 0x10000 then [0xE0 + v / 64 / 64, 0x80 + v / 64 % 64, 0x80 + v % 64]
    else [0xF0 + v / 64 / 64 / 64, 0x80 + v / 64 / 64 % 64, 0x80 + v / 64 % 64, 0x80 + v % 64]
  }

  /** The UTF-8 bytes of a string, character by character. */
  function Utf8String(s: string): seq<Byte>
  {
    if s == [] then [] else Utf8(s[0]) + Utf8String(s[1..])
  }

  /** Each byte as "%XX". */
  function PercentEscape(bs: seq<Byte>): (r: string)
    ensures |r| == 3 * |bs|
  {
    if bs == [] then []
    else ['%', HexDigits[bs[0] / 16], HexDigits[bs[0] % 16]] + PercentEscape(bs[1..])
  }

  /** How URLEncoder writes one character. */
  function EncodeChar(c: char): (r: string)
    ensures 1 <= |r| <= 12
    ensures |r| == 1 <==> Unreserved(c) || c == ' '
  {
    if Unreserved(c) then [c]
    else if c == ' ' then ['+']
    else PercentEscape(Utf8(c))
  }

  /** URLEncoder.encode(s, "UTF-8"). */
  function Encode(s: string): (r: string)
    ensures |s| <= |r| <= 12 * |s|
  {
    if s == [] then [] else EncodeChar(s[0]) + Encode(s[1..])
  }

  lemma {:induction false} PercentEscapeAlphabet(bs: seq<Byte>)
    ensures forall i :: 0 <= i < |PercentEscape(bs)| ==> EncodedChar(PercentEscape(bs)[i])
  {
    if bs != [] {
      PercentEscapeAlphabet(bs[1..]);
    }
  }

  lemma EncodeCharAlphabet(c: char)
    ensures forall i :: 0 <= i < |EncodeChar(c)| ==> EncodedChar(EncodeChar(c)[i])
  {
    if !Unreserved(c) && c != ' ' {
      PercentEscapeAlphabet(Utf8(c));
    }
  }

  /** Every character of an encoding is unreserved, '+' or '%'; in
      particular it is never '&', '=' or '?'. */
  lemma {:induction false} EncodeAlphabet(s: string)
    ensures forall i :: 0 <= i < |Encode(s)| ==> EncodedChar(Encode(s)[i])
  {
    if s != [] {
      EncodeCharAlphabet(s[0]);
      EncodeAlphabet(s[1..]);
    }
  }

  /** A string of unreserved characters is its own encoding. */
  lemma {:induction false} EncodeUnreserved(s: string)
    requires forall i :: 0 <= i < |s| ==> Unreserved(s[i])
    ensures Encode(s) == s
  {
    if s != [] {
      EncodeUnreserved(s[1..]);
      assert [s[0]] + s[1..] == s;
    }
  }

  // ---------------------------------------------------------------------
  // Decoding: the inverse of Encode on its image. The decoder is strict:
  // it accepts only upper-case hex digits and only shortest-form UTF-8, so
  // the round trip below pins down the exact text Encode writes.

  /** The hex digits an escape may use: upper case only, as Encode writes. */
  predicate IsHexDigit(c: char)
  {
    ('0' <= c <= '9') || ('A' <= c <= 'F')
  }

  function HexValue(c: char): (n: nat)
    requires IsHexDigit(c)
    ensures n < 16 && HexDigits[n] == c
  {
    if '0' <= c <= '9' then c as int - '0' as int
    else c as int - 'A' as int + 10
  }

  function PrependBytes(bs: seq<Byte>, rest: Option<seq<Byte>>): Option<seq<Byte>>
  {
    match rest
    case None => None
    case Some(t) => Some(bs + t)
  }

  /** Undoes the escaping: '+' is a space, "%XX" is the byte XX, an
      unreserved character is its own ASCII byte; anything else is malformed. */
  function Unescape(t: string): Option<seq<Byte>>
  {
    if t == [] then Some([])
    else if t[0] == '+' then PrependBytes([0x20], Unescape(t[1..]))
    else if t[0] == '%' then
      if |t| >= 3 && IsHexDigit(t[1]) && IsHexDigit(t[2])
      then PrependBytes([HexValue(t[1]) * 16 + HexValue(t[2])], Unescape(t[3..]))
      else None
    else if Unreserved(t[0]) then PrependBytes([t[0] as int], Unescape(t[1..]))
    else None
  }

  predicate IsContinuation(b: Byte)
  {
    0x80 <= b < 0xC0
  }

  predicate IsScalarValue(v: int)
  {
    (0 <= v < 0xD800) || (0xE000 <= v < 0x110000)
  }

  /** Puts code point v in front of the decoded rest, provided v is a scalar
      value of at least min, the least value that needs this many bytes;
      a smaller one is an overlong form and is rejected. */
  function PrependScalar(v: int, min: int, rest: Option<string>): Option<string>
  {
    if min <= v && IsScalarValue(v) && rest.Some? then Some([v as char] + rest.value) else None
  }

  /** Six payload bits appended to a partial code point. */
  function Shift6(acc: int, b: Byte): int
  {
    acc * 64 + (b as int - 0x80)
  }

  /** Reads shortest-form UTF-8 bytes back into characters. */
  function Utf8Decode(bs: seq<Byte>): Option<string>
  {
    if bs == [] then Some([])
    else
      var b0 := bs[0] as int;
      if b0 < 0x80 then
        PrependScalar(b0, 0, Utf8Decode(bs[1..]))
      else if 0xC0 <= b0 < 0xE0 && |bs| >= 2 && IsContinuation(bs[1]) then
        PrependScalar(Shift6(b0 - 0xC0, bs[1]), 0x80, Utf8Decode(bs[2..]))
      else if 0xE0 <= b0 < 0xF0 && |bs| >= 3 && IsContinuation(bs[1]) && IsContinuation(bs[2]) then
        PrependScalar(Shift6(Shift6(b0 - 0xE0, bs[1]), bs[2]), 0x800, Utf8Decode(bs[3..]))
      else if 0xF0 <= b0 < 0xF8 && |bs| >= 4 &&
              IsContinuation(bs[1]) && IsContinuation(bs[2]) && IsContinuation(bs[3]) then
        PrependScalar(Shift6(Shift6(Shift6(b0 - 0xF0, bs[1]), bs[2]), bs[3]), 0x10000, Utf8Decode(bs[4..]))
      else None
  }

  /** The inverse of Encode on its image: undoes the escapes, then reads the
      bytes as UTF-8; None for any text Encode cannot have written. */
  function Decode(t: string): Option<string>
  {
    match Unescape(t)
    case None => None
    case Some(bs) => Utf8Decode(bs)
  }

  // ---------------------------------------------------------------------
  // The round trip.

  lemma HexDigitValue(n: nat)
    requires n < 16
    ensures IsHexDigit(HexDigits[n]) && HexValue(HexDigits[n]) == n
  {
  }

  /** "%XX" unescapes to the byte XX. */
  lemma UnescapeEscapedByte(b: Byte, rest: string)
    ensures Unescape(['%', HexDigits[b / 16], HexDigits[b % 16]] + rest) == PrependBytes([b], Unescape(rest))
  {
    var t := ['%', HexDigits[b / 16], HexDigits[b % 16]] + rest;
    HexDigitValue(b / 16);
    HexDigitValue(b % 16);
    assert t[3..] == rest;
  }

  lemma {:induction false} UnescapePercentEscape(bs: seq<Byte>, rest: string)
    ensures Unescape(PercentEscape(bs) + rest) == PrependBytes(bs, Unescape(rest))
  {
    if bs != [] {
      var b := bs[0];
      var tail := PercentEscape(bs[1..]) + rest;
      assert PercentEscape(bs) + rest == ['%', HexDigits[b / 16], HexDigits[b % 16]] + tail;
      UnescapeEscapedByte(b, tail);
      UnescapePercentEscape(bs[1..], rest);
      match Unescape(rest)
      case None =>
      case Some(u) => assert [b] + (bs[1..] + u) == bs + u;
    } else {
      assert PercentEscape(bs) + rest == rest;
      match Unescape(rest)
      case None =>
      case Some(u) => assert bs + u == u;
    }
  }

  lemma UnescapeEncodeChar(c: char, rest: string)
    ensures Unescape(EncodeChar(c) + rest) == PrependBytes(Utf8(c), Unescape(rest))
  {
    if Unreserved(c) {
      assert (EncodeChar(c) + rest)[1..] == rest;
    } else if c == ' ' {
      assert (EncodeChar(c) + rest)[1..] == rest;
    } else {
      UnescapePercentEscape(Utf8(c), rest);
    }
  }

  /** Unescaping an encoding gives back the UTF-8 bytes of the original. */
  lemma {:induction false} UnescapeEncode(s: string)
    ensures Unescape(Encode(s)) == Some(Utf8String(s))
  {
    if s != [] {
      UnescapeEncodeChar(s[0], Encode(s[1..]));
      UnescapeEncode(s[1..]);
    }
  }

  lemma Split64(x: nat)
    ensures x == x / 64 * 64 + x % 64 && 0 <= x % 64 < 64
  {
  }

  lemma Utf8DecodeChar(c: char, rest: seq<Byte>)
    ensures Utf8Decode(Utf8(c) + rest) == PrependScalar(c as int, 0, Utf8Decode(rest))
  {
    var v := c as int;
    var bs := Utf8(c) + rest;
    Split64(v);
    Split64(v / 64);
    Split64(v / 64 / 64);
    if v < 0x80 {
      assert bs[1..] == rest;
    } else if v < 0x800 {
      assert Shift6(bs[0] - 0xC0, bs[1]) == v;
      assert bs[2..] == rest;
    } else if v < 0x10000 {
      assert Shift6(Shift6(bs[0] - 0xE0, bs[1]), bs[2]) == v;
      assert bs[3..] == rest;
    } else {
      assert Shift6(Shift6(Shift6(bs[0] - 0xF0, bs[1]), bs[2]), bs[3]) == v;
      assert bs[4..] == rest;
    }
  }

  /** Decoding UTF-8 undoes encoding it. */
  lemma {:induction false} Utf8RoundTrip(s: string)
    ensures Utf8Decode(Utf8String(s)) == Some(s)
  {
    if s != [] {
      Utf8DecodeChar(s[0], Utf8String(s[1..]));
      Utf8RoundTrip(s[1..]);
      assert [s[0] as int as char] + s[1..] == s;
    }
  }

  lemma DivMod64(q: int, r: int)
    requires 0 <= q && 0 <= r < 64
    ensures (q * 64 + r) / 64 == q && (q * 64 + r) % 64 == r
  {
  }

  /** The one character a shortest-form sequence decodes to encodes back to
      exactly that sequence, for each of the three multi-byte lengths. */
  lemma Utf8OfTwoBytes(b0: Byte, b1: Byte)
    requires 0xC0 <= b0 < 0xE0 && IsContinuation(b1)
    requires 0x80 <= Shift6(b0 - 0xC0, b1)
    ensures IsScalarValue(Shift6(b0 - 0xC0, b1))
    ensures Utf8(Shift6(b0 - 0xC0, b1) as char) == [b0, b1]
  {
    DivMod64(b0 - 0xC0, b1 - 0x80);
  }

  lemma Utf8OfThreeBytes(b0: Byte, b1: Byte, b2: Byte)
    requires 0xE0 <= b0 < 0xF0 && IsContinuation(b1) && IsContinuation(b2)
    requires 0x800 <= Shift6(Shift6(b0 - 0xE0, b1), b2)
    requires IsScalarValue(Shift6(Shift6(b0 - 0xE0, b1), b2))
    ensures Utf8(Shift6(Shift6(b0 - 0xE0, b1), b2) as char) == [b0, b1, b2]
  {
    var w := Shift6(b0 - 0xE0, b1);
    DivMod64(b0 - 0xE0, b1 - 0x80);
    DivMod64(w, b2 - 0x80);
  }

  lemma Utf8OfFourBytes(b0: Byte, b1: Byte, b2: Byte, b3: Byte)
    requires 0xF0 <= b0 < 0xF8 && IsContinuation(b1) && IsContinuation(b2) && IsContinuation(b3)
    requires 0x10000 <= Shift6(Shift6(Shift6(b0 - 0xF0, b1), b2), b3)
    requires IsScalarValue(Shift6(Shift6(Shift6(b0 - 0xF0, b1), b2), b3))
    ensures Utf8(Shift6(Shift6(Shift6(b0 - 0xF0, b1), b2), b3) as char) == [b0, b1, b2, b3]
  {
    var w1 := Shift6(b0 - 0xF0, b1);
    var w2 := Shift6(w1, b2);
    DivMod64(b0 - 0xF0, b1 - 0x80);
    DivMod64(w1, b2 - 0x80);
    DivMod64(w2, b3 - 0x80);
  }

  /** The decoder accepts only the UTF-8 that Utf8String writes: whatever it
      reads, re-encoding the result gives back exactly the same bytes. So no
      overlong form, surrogate or out-of-range value is ever accepted. */
  lemma {:induction false} Utf8DecodeExact(bs: seq<Byte>, s: string)
    requires Utf8Decode(bs) == Some(s)
    ensures Utf8String(s) == bs
  {
    if bs != [] {
      var b0 := bs[0] as int;
      var n := if b0 < 0x80 then 1 else if b0 < 0xE0 then 2 else if b0 < 0xF0 then 3 else 4;
      var t := Utf8Decode(bs[n..]).value;
      assert s == [s[0]] + t;
      assert s[1..] == t;
      Utf8DecodeExact(bs[n..], t);
      if n == 2 {
        Utf8OfTwoBytes(bs[0], bs[1]);
      } else if n == 3 {
        Utf8OfThreeBytes(bs[0], bs[1], bs[2]);
      } else if n == 4 {
        Utf8OfFourBytes(bs[0], bs[1], bs[2], bs[3]);
      }
      assert Utf8(s[0]) == bs[..n];
      assert bs == bs[..n] + bs[n..];
    }
  }

  /** Decode is the inverse of Encode, so Encode loses nothing and two
      different strings never encode alike. */
  lemma DecodeEncode(s: string)
    ensures Decode(Encode(s)) == Some(s)
  {
    UnescapeEncode(s);
    Utf8RoundTrip(s);
  }

  lemma EncodeInjective(s: string, t: string)
    requires Encode(s) == Encode(t)
    ensures s == t
  {
    DecodeEncode(s);
    DecodeEncode(t);
  }

  /** A worked case: a space, a two-byte character and a delimiter. */
  lemma EncodeSample()
    ensures Encode(" \U{E9}&") == "+%C3%A9%26"
  {
    var s := " \U{E9}&";
    EncodeTwoByteSample();
    assert EncodeChar('&') == "%26";
    EncodeCons(s, "+");
    EncodeCons(s[1..], "%C3%A9");
    EncodeCons(s[2..], "%26");
  }

  /** A line break is one byte and so a single escape, not %0D%0A. */
  lemma EncodeLineBreak()
    ensures Encode("\n") == "%0A"
  {
    assert Utf8('\n') == [0x0A];
    assert EncodeChar('\n') == "%0A";
  }

  lemma EncodeTwoByteSample()
    ensures EncodeChar('\U{E9}') == "%C3%A9"
  {
    assert Utf8('\U{E9}') == [0xC3, 0xA9];
    assert PercentEscape([0xA9]) == "%A9";
  }

  lemma EncodeCons(s: string, head: string)
    requires s != [] && EncodeChar(s[0]) == head
    ensures Encode(s) == head + Encode(s[1..])
  {
  }
}
