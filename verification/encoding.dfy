/** `Encoding.UTF8.GetBytes` and `Encoding.ASCII.GetBytes` on strings, the
    two ways the server turns the configured signing key into key bytes.
    A character is a Unicode scalar value. */
module Encodings {
  import opened Base

  newtype Byte = b: int | 0 <= b < 0x100

  type Bytes = seq<Byte>

  /** The byte `Encoding.ASCII` writes for a character it cannot encode. */
  const Replacement: Byte := 0x3F

  predicate IsAscii(c: char) { (c as int) < 0x80 }

  predicate AllAscii(s: string) { forall i :: 0 <= i < |s| ==> IsAscii(s[i]) }

  /** The UTF-8 encoding of one scalar value: one byte below U+0080, then two,
      three or four bytes, a lead byte followed by continuation bytes that
      carry six bits each. */
  function EncodeChar(c: char): (r: Bytes)
    ensures 1 <= |r| <= 4
    ensures |r| == 1 <==> IsAscii(c)
    ensures IsAscii(c) ==> r == [c as int as Byte]
    ensures !IsAscii(c) ==> r[0] >= 0xC0
  {
    var n := c as int;
    if n < 0x80 then [n as Byte]
    else if n < 0x800 then [(0xC0 + n / 0x40) as Byte, (0x80 + n % 0x40) as Byte]
    else if n < 0x1_0000 then
      [(0xE0 + n / 0x1000) as Byte, (0x80 + (n / 0x40) % 0x40) as Byte, (0x80 + n % 0x40) as Byte]
    else
      [(0xF0 + n / 0x4_0000) as Byte, (0x80 + (n / 0x1000) % 0x40) as Byte,
       (0x80 + (n / 0x40) % 0x40) as Byte, (0x80 + n % 0x40) as Byte]
  }

  /** `Encoding.UTF8.GetBytes`. */
  function Utf8(s: string): (r: Bytes)
  {
    if |s| == 0 then [] else EncodeChar(s[0]) + Utf8(s[1..])
  }

  /** `Encoding.ASCII.GetBytes`: one byte per character, `?` for every
      character outside ASCII. */
  function Ascii(s: string): (r: Bytes)
    ensures |r| == |s|
    ensures forall i :: 0 <= i < |s| ==> r[i] == if IsAscii(s[i]) then s[i] as int as Byte else Replacement
  {
    seq(|s|, i requires 0 <= i < |s| => if IsAscii(s[i]) then s[i] as int as Byte else Replacement)
  }

  /** UTF-8 never takes fewer bytes than characters, and takes exactly as
      many precisely when every character is ASCII. */
  lemma {:induction false} Utf8Length(s: string)
    ensures |Utf8(s)| >= |s|
    ensures |Utf8(s)| == |s| <==> AllAscii(s)
  {
    if |s| > 0 {
      Utf8Length(s[1..]);
      assert AllAscii(s) <==> IsAscii(s[0]) && AllAscii(s[1..]) by {
        if IsAscii(s[0]) && AllAscii(s[1..]) {
          forall i | 0 <= i < |s| ensures IsAscii(s[i]) {
            if i > 0 { assert s[i] == s[1..][i - 1]; }
          }
        }
      }
    }
  }

  /** On an ASCII string the two encodings give the same bytes. */
  lemma {:induction false} AsciiStringsAgree(s: string)
    requires AllAscii(s)
    ensures Utf8(s) == Ascii(s)
  {
    if |s| > 0 {
      assert AllAscii(s[1..]) by {
        forall i | 0 <= i < |s[1..]| ensures IsAscii(s[1..][i]) {
          assert s[1..][i] == s[i + 1];
        }
      }
      AsciiStringsAgree(s[1..]);
      assert Ascii(s) == [s[0] as int as Byte] + Ascii(s[1..]);
    }
  }

  /** The key bytes of the signing side and of the validating side agree
      exactly when the key is plain ASCII. */
  lemma EncodingsAgreeIffAscii(s: string)
    ensures Utf8(s) == Ascii(s) <==> AllAscii(s)
  {
    Utf8Length(s);
    if AllAscii(s) {
      AsciiStringsAgree(s);
    }
  }

  // ---------------------------------------------------------------------
  // Decoding, the inverse that shows the encoding loses nothing.

  predicate IsContinuation(b: Byte) { 0x80 <= b < 0xC0 }

  /** A scalar value: not a surrogate and not above U+10FFFF. */
  predicate IsScalar(n: int) { 0 <= n < 0xD800 || 0xE000 <= n <= 0x10_FFFF }

  /** The code point whose encoding starts `bs` and that encoding's length,
      or `None` when `bs` does not start with a well-formed sequence. */
  function DecodeFirst(bs: Bytes): (r: Option<(char, nat)>)
    ensures r.Some? ==> 1 <= r.value.1 <= |bs|
  {
    if |bs| == 0 then None
    else
      var b0 := bs[0] as int;
      if b0 < 0x80 then Some((b0 as char, 1))
      else if 0xC0 <= b0 < 0xE0 && |bs| >= 2 && IsContinuation(bs[1]) then
        var n := (b0 - 0xC0) * 0x40 + (bs[1] as int - 0x80);
        if 0x80 <= n then Some((n as char, 2)) else None
      else if 0xE0 <= b0 < 0xF0 && |bs| >= 3 && IsContinuation(bs[1]) && IsContinuation(bs[2]) then
        var n := (b0 - 0xE0) * 0x1000 + (bs[1] as int - 0x80) * 0x40 + (bs[2] as int - 0x80);
        if 0x800 <= n && IsScalar(n) then Some((n as char, 3)) else None
      else if 0xF0 <= b0 < 0xF8 && |bs| >= 4 && IsContinuation(bs[1]) && IsContinuation(bs[2]) && IsContinuation(bs[3]) then
        var n := (b0 - 0xF0) * 0x4_0000 + (bs[1] as int - 0x80) * 0x1000 + (bs[2] as int - 0x80) * 0x40 + (bs[3] as int - 0x80);
        if 0x1_0000 <= n && IsScalar(n) then Some((n as char, 4)) else None
      else None
  }

  /** `Encoding.UTF8.GetString` on well-formed input; `None` on anything
      else (the decoder's replacement of bad sequences is not needed here). */
  function DecodeUtf8(bs: Bytes): (r: Option<string>)
    decreases |bs|
  {
    if |bs| == 0 then Some([])
    else match DecodeFirst(bs)
      case None => None
      case Some((c, k)) =>
        match DecodeUtf8(bs[k..])
        case None => None
        case Some(rest) => Some([c] + rest)
  }

  /** The first character's encoding is read back whatever follows it. */
  lemma DecodeEncodedChar(c: char, rest: Bytes)
    ensures DecodeFirst(EncodeChar(c) + rest) == Some((c, |EncodeChar(c)|))
  {
    var n := c as int;
    if n < 0x80 {
    } else if n < 0x800 {
      DecodeTwo(c, rest);
    } else if n < 0x1_0000 {
      DecodeThree(c, rest);
    } else {
      DecodeFour(c, rest);
    }
  }

  lemma DecodeTwo(c: char, rest: Bytes)
    requires 0x80 <= c as int < 0x800
    ensures DecodeFirst(EncodeChar(c) + rest) == Some((c, 2))
  {
    var n := c as int;
    var b0, b1 := 0xC0 + n / 0x40, 0x80 + n % 0x40;
    assert (EncodeChar(c) + rest)[..2] == [b0 as Byte, b1 as Byte];
    assert (b0 - 0xC0) * 0x40 + (b1 - 0x80) == n;
  }

  lemma DecodeThree(c: char, rest: Bytes)
    requires 0x800 <= c as int < 0x1_0000
    ensures DecodeFirst(EncodeChar(c) + rest) == Some((c, 3))
  {
    var n := c as int;
    var q := n / 0x40;
    var hi, mid, lo := q / 0x40, q % 0x40, n % 0x40;
    assert n / 0x1000 == hi;
    assert (EncodeChar(c) + rest)[..3] == [(0xE0 + hi) as Byte, (0x80 + mid) as Byte, (0x80 + lo) as Byte];
    assert n == hi * 0x1000 + mid * 0x40 + lo;
  }

  lemma DecodeFour(c: char, rest: Bytes)
    requires 0x1_0000 <= c as int
    ensures DecodeFirst(EncodeChar(c) + rest) == Some((c, 4))
  {
    var n := c as int;
    var q := n / 0x40;
    var p := q / 0x40;
    var top, hi, mid, lo := p / 0x40, p % 0x40, q % 0x40, n % 0x40;
    assert n / 0x1000 == p;
    assert n / 0x4_0000 == top;
    assert (EncodeChar(c) + rest)[..4] == [(0xF0 + top) as Byte, (0x80 + hi) as Byte, (0x80 + mid) as Byte, (0x80 + lo) as Byte];
    assert n == top * 0x4_0000 + hi * 0x1000 + mid * 0x40 + lo;
  }

  /** Decoding the UTF-8 bytes of a string gives the string back. */
  lemma {:induction false} Utf8RoundTrip(s: string)
    ensures DecodeUtf8(Utf8(s)) == Some(s)
  {
    if |s| > 0 {
      var e := EncodeChar(s[0]);
      var bs := Utf8(s);
      DecodeEncodedChar(s[0], Utf8(s[1..]));
      assert bs[|e|..] == Utf8(s[1..]);
      Utf8RoundTrip(s[1..]);
      assert [s[0]] + s[1..] == s;
    }
  }
}
