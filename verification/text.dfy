/** String handling of the .NET runtime that the server code relies on:
    `char.IsWhiteSpace`, `string.IsNullOrWhiteSpace`, `string.Trim`,
    `int.TryParse`, decimal formatting and `StringValues.ToString`. */
module Text {
  import opened Base

  /** `char.IsWhiteSpace`: the Unicode White_Space characters. */
  predicate IsWhiteSpace(c: char) {
    || ('\U{9}' <= c <= '\U{D}')
    || c == ' '
    || c == '\U{85}'
    || c == '\U{A0}'
    || c == '\U{1680}'
    || ('\U{2000}' <= c <= '\U{200A}')
    || c == '\U{2028}'
    || c == '\U{2029}'
    || c == '\U{202F}'
    || c == '\U{205F}'
    || c == '\U{3000}'
  }

  /** `string.IsNullOrWhiteSpace` on a present string: empty or all white space. */
  predicate IsBlank(s: string) {
    forall i :: 0 <= i < |s| ==> IsWhiteSpace(s[i])
  }

  /** The same predicate on a string that may be `null`. */
  predicate IsNullOrWhiteSpace(s: Option<string>) {
    s.None? || IsBlank(s.value)
  }

  /** Drops the leading characters that satisfy `p`. */
  function TrimStartWith(s: string, p: char -> bool): (r: string)
    ensures |r| <= |s| && r == s[|s| - |r|..]
    ensures forall i :: 0 <= i < |s| - |r| ==> p(s[i])
    ensures |r| > 0 ==> !p(r[0])
  {
    if |s| == 0 || !p(s[0]) then s else TrimStartWith(s[1..], p)
  }

  /** Drops the trailing characters that satisfy `p`. */
  function TrimEndWith(s: string, p: char -> bool): (r: string)
    ensures |r| <= |s| && r == s[..|r|]
    ensures forall i :: |r| <= i < |s| ==> p(s[i])
    ensures |r| > 0 ==> !p(r[|r| - 1])
  {
    if |s| == 0 || !p(s[|s| - 1]) then s else TrimEndWith(s[..|s| - 1], p)
  }

  /** Drops the characters satisfying `p` at both ends: what is left is a
      slice of `s` with only such characters outside it. */
  function TrimWith(s: string, p: char -> bool): (r: string)
    ensures |r| <= |s|
    ensures exists k :: TrimmedAt(s, p, k, r)
    ensures |r| > 0 ==> !p(r[0]) && !p(r[|r| - 1])
  {
    var a := TrimStartWith(s, p);
    var r := TrimEndWith(a, p);
    TrimmedWitness(s, p, a, r);
    r
  }

  /** `r` is the slice of `s` from `k`, and `p` holds on every character
      outside it. */
  ghost predicate TrimmedAt(s: string, p: char -> bool, k: int, r: string) {
    && 0 <= k && k + |r| <= |s| && r == s[k..k + |r|]
    && (forall i :: 0 <= i < k ==> p(s[i]))
    && (forall i :: k + |r| <= i < |s| ==> p(s[i]))
  }

  lemma TrimmedWitness(s: string, p: char -> bool, a: string, r: string)
    requires |a| <= |s| && a == s[|s| - |a|..] && forall i :: 0 <= i < |s| - |a| ==> p(s[i])
    requires |r| <= |a| && r == a[..|r|] && forall i :: |r| <= i < |a| ==> p(a[i])
    ensures TrimmedAt(s, p, |s| - |a|, r)
  {
    var k := |s| - |a|;
    forall i | k + |r| <= i < |s| ensures p(s[i]) {
      assert s[i] == a[i - k];
    }
  }

  /** `string.Trim()`. */
  function Trim(s: string): string {
    TrimWith(s, IsWhiteSpace)
  }

  /** Trimming leaves alone a string that has no white space at its ends. */
  lemma TrimUntouched(s: string, p: char -> bool)
    requires |s| > 0 ==> !p(s[0]) && !p(s[|s| - 1])
    ensures TrimWith(s, p) == s
  {
  }

  /** Trimming a string made only of white space gives the empty string. */
  lemma TrimBlank(s: string)
    requires IsBlank(s)
    ensures Trim(s) == ""
  {
  }

  // ---------------------------------------------------------------------
  // int.TryParse(string, out int) with NumberStyles.Integer

  /** The white space `NumberStyles.AllowLeadingWhite`/`AllowTrailingWhite`
      accept: U+0009 to U+000D and U+0020. */
  predicate IsNumberWhite(c: char) { c == ' ' || ('\U{9}' <= c <= '\U{D}') }

  predicate IsDigit(c: char) { '0' <= c <= '9' }

  predicate AllDigits(s: string) { forall i :: 0 <= i < |s| ==> IsDigit(s[i]) }

  function DigitValue(c: char): nat
    requires IsDigit(c)
  {
    c as int - '0' as int
  }

  /** The value of a run of decimal digits, most significant first. */
  function DigitsValue(ds: string): nat
    requires AllDigits(ds)
  {
    if |ds| == 0 then 0 else DigitsValue(ds[..|ds| - 1]) * 10 + DigitValue(ds[|ds| - 1])
  }

  /** The U+0000 characters the parser accepts at the very end of a number. */
  predicate IsNul(c: char) { c == '\0' }

  /** `int.TryParse(s, out n)`: `None` is the `false` return. The accepted
      form is optional white space, one optional sign, ASCII digits, optional
      white space and then any number of U+0000 characters. A `null` string,
      an empty or blank one, a sign without digits, any other character, and
      any value outside the 32-bit range all fail. */
  function TryParseInt32(s: Option<string>): (r: Option<int>)
    ensures r.Some? ==> InInt32(r.value)
    ensures s.None? ==> r.None?
  {
    if s.None? then None else ParseSignedDigits(NumberCore(s.value))
  }

  /** What is left of the input once the trailing U+0000 characters and then
      the white space at both ends are dropped. */
  function NumberCore(s: string): string {
    TrimWith(TrimEndWith(s, IsNul), IsNumberWhite)
  }

  /** One optional sign and ASCII digits, whose value must fit in 32 bits. */
  function ParseSignedDigits(t: string): (r: Option<int>)
    ensures r.Some? ==> InInt32(r.value)
  {
    if |t| == 0 then
      None
    else
      var negative := t[0] == '-';
      var digits := if t[0] == '-' || t[0] == '+' then t[1..] else t;
      if |digits| == 0 || !AllDigits(digits) then
        None
      else
        var v: int := if negative then 0 - DigitsValue(digits) as int else DigitsValue(digits);
        if InInt32(v) then Some(v) else None
  }

  /** The characters a setting the parser accepts may contain. */
  predicate IsNumberChar(c: char) {
    IsNumberWhite(c) || IsDigit(c) || c == '+' || c == '-' || IsNul(c)
  }

  /** What the sign-and-digits parser accepts is a sign or a digit in each
      position, and ends in a digit. */
  lemma SignedDigitsChars(t: string)
    requires ParseSignedDigits(t).Some?
    ensures |t| > 0 && IsDigit(t[|t| - 1])
    ensures forall j :: 0 <= j < |t| ==> IsDigit(t[j]) || t[j] == '+' || t[j] == '-'
  {
    if t[0] == '-' || t[0] == '+' {
      assert forall j :: 1 <= j < |t| ==> t[j] == t[1..][j - 1];
      assert t[|t| - 1] == t[1..][|t| - 2];
    }
  }

  /** A string made of a slice of signs and digits, with number white space
      around it inside `e`, and `e` followed by U+0000 characters, holds only
      number characters. */
  lemma PaddedCoreChars(s: string, e: string, k: int, t: string)
    requires |e| <= |s| && e == s[..|e|] && forall i :: |e| <= i < |s| ==> IsNul(s[i])
    requires TrimmedAt(e, IsNumberWhite, k, t)
    requires forall j :: 0 <= j < |t| ==> IsDigit(t[j]) || t[j] == '+' || t[j] == '-'
    ensures forall i :: 0 <= i < |s| ==> IsNumberChar(s[i])
  {
    forall i | 0 <= i < |s| ensures IsNumberChar(s[i]) {
      if i < |e| {
        assert s[i] == e[i];
        if k <= i < k + |t| {
          assert e[i] == t[i - k];
        }
      }
    }
  }

  /** The rejecting half of `int.TryParse`: a setting that parses holds only
      number white space, digits, signs and U+0000, and at least one digit. */
  lemma ParsedCharacters(s: string)
    requires TryParseInt32(Some(s)).Some?
    ensures forall i :: 0 <= i < |s| ==> IsNumberChar(s[i])
    ensures exists i :: 0 <= i < |s| && IsDigit(s[i])
  {
    var e := TrimEndWith(s, IsNul);
    var t := TrimWith(e, IsNumberWhite);
    assert ParseSignedDigits(t).Some?;
    SignedDigitsChars(t);
    var k :| TrimmedAt(e, IsNumberWhite, k, t);
    PaddedCoreChars(s, e, k, t);
    assert s[k + |t| - 1] == e[k + |t| - 1] == t[|t| - 1];
  }

  /** The decimal digits of a natural number, most significant first, without
      leading zeros. */
  function NatDigits(n: nat): (r: string)
    ensures |r| > 0 && AllDigits(r)
    decreases n
  {
    if n < 10 then ['0' + n as char] else NatDigits(n / 10) + ['0' + (n % 10) as char]
  }

  /** `int.ToString()` in the invariant culture. */
  function FormatInt(n: int): (r: string)
    ensures |r| > 0
  {
    if n < 0 then "-" + NatDigits(-n) else NatDigits(n)
  }

  lemma {:induction false} DigitsValueOfNatDigits(n: nat)
    ensures DigitsValue(NatDigits(n)) == n
    decreases n
  {
    if n >= 10 {
      var a := NatDigits(n / 10);
      var ds := a + ['0' + (n % 10) as char];
      assert ds[..|ds| - 1] == a;
      DigitsValueOfNatDigits(n / 10);
    }
  }

  /** Trimming the start drops exactly a prefix of trimmable characters
      that stops at a character the predicate rejects. */
  lemma {:induction false} TrimStartDrops(z: string, x: string, p: char -> bool)
    requires forall i :: 0 <= i < |z| ==> p(z[i])
    requires |x| > 0 && !p(x[0])
    ensures TrimStartWith(z + x, p) == x
    decreases |z|
  {
    if |z| > 0 {
      assert (z + x)[1..] == z[1..] + x;
      TrimStartDrops(z[1..], x, p);
    } else {
      assert z + x == x;
    }
  }

  /** Trimming the end drops exactly a suffix of trimmable characters that
      follows a character the predicate rejects. */
  lemma {:induction false} TrimEndDrops(x: string, z: string, p: char -> bool)
    requires forall i :: 0 <= i < |z| ==> p(z[i])
    requires |x| > 0 && !p(x[|x| - 1])
    ensures TrimEndWith(x + z, p) == x
    decreases |z|
  {
    if |z| > 0 {
      assert (x + z)[..|x + z| - 1] == x + z[..|z| - 1];
      TrimEndDrops(x, z[..|z| - 1], p);
    } else {
      assert x + z == x;
    }
  }

  /** The sign-and-digits parser reads a formatted integer back. */
  lemma ParseOfCore(n: int)
    requires InInt32(n)
    ensures ParseSignedDigits(FormatInt(n)) == Some(n)
  {
    var f := FormatInt(n);
    var m: nat := if n < 0 then -n else n;
    var ds := NatDigits(m);
    DigitsValueOfNatDigits(m);
    if n < 0 {
      assert f[1..] == ds;
    }
  }

  /** Trimming strips exactly the padding around a formatted integer. */
  lemma PaddingTrimmed(n: int, lead: string, trail: string, nuls: string)
    requires forall i :: 0 <= i < |lead| ==> IsNumberWhite(lead[i])
    requires forall i :: 0 <= i < |trail| ==> IsNumberWhite(trail[i])
    requires forall i :: 0 <= i < |nuls| ==> IsNul(nuls[i])
    ensures NumberCore(lead + FormatInt(n) + trail + nuls) == FormatInt(n)
  {
    var f := FormatInt(n);
    var m: nat := if n < 0 then -n else n;
    var ds := NatDigits(m);
    assert f[|f| - 1] == ds[|ds| - 1];
    assert !IsNumberWhite(f[0]) by {
      if n >= 0 { assert f[0] == ds[0]; }
    }
    var padded := lead + f + trail;
    assert !IsNul(padded[|padded| - 1]) by {
      if |trail| > 0 { assert padded[|padded| - 1] == trail[|trail| - 1]; }
      else { assert padded[|padded| - 1] == f[|f| - 1]; }
    }
    TrimEndDrops(padded, nuls, IsNul);
    assert padded == lead + (f + trail);
    TrimStartDrops(lead, f + trail, IsNumberWhite);
    TrimEndDrops(f, trail, IsNumberWhite);
  }

  /** Any 32-bit integer, written in decimal between white space and followed
      by U+0000 characters, parses back to itself. */
  lemma ParsePadded(n: int, lead: string, trail: string, nuls: string)
    requires InInt32(n)
    requires forall i :: 0 <= i < |lead| ==> IsNumberWhite(lead[i])
    requires forall i :: 0 <= i < |trail| ==> IsNumberWhite(trail[i])
    requires forall i :: 0 <= i < |nuls| ==> IsNul(nuls[i])
    ensures TryParseInt32(Some(lead + FormatInt(n) + trail + nuls)) == Some(n)
  {
    PaddingTrimmed(n, lead, trail, nuls);
    ParseOfCore(n);
  }

  /** Formatting then parsing a 32-bit integer gives it back. */
  lemma ParseFormatRoundTrip(n: int)
    requires InInt32(n)
    ensures TryParseInt32(Some(FormatInt(n))) == Some(n)
  {
    ParsePadded(n, "", "", "");
    assert "" + FormatInt(n) + "" + "" == FormatInt(n);
  }

  /** A setting holding "7" followed by U+0000 parses as 7. */
  lemma TrailingNulAccepted()
    ensures TryParseInt32(Some("7\0")) == Some(7)
  {
    ParsePadded(7, "", "", "\0");
    assert "" + FormatInt(7) + "" + "\0" == "7\0";
  }

  // ---------------------------------------------------------------------
  // Microsoft.Extensions.Primitives.StringValues.ToString()

  /** `StringValues.ToString()`: no value gives the empty string, one value is
      returned as is, several are joined with commas. */
  function JoinValues(values: seq<string>): (r: string)
    ensures |values| == 0 ==> r == ""
    ensures |values| == 1 ==> r == values[0]
  {
    if |values| == 0 then ""
    else if |values| == 1 then values[0]
    else values[0] + "," + JoinValues(values[1..])
  }

  /** A string as the sequence of its character codes, the key of an
      ordinal (code point by code point) ordering. */
  function Codes(s: string): (r: seq<int>)
    ensures |r| == |s|
    ensures forall i :: 0 <= i < |s| ==> r[i] == s[i] as int
  {
    seq(|s|, i requires 0 <= i < |s| => s[i] as int)
  }

  /** Codes determine the string. */
  lemma CodesInjective(a: string, b: string)
    requires Codes(a) == Codes(b)
    ensures a == b
  {
    assert |a| == |b|;
    forall i | 0 <= i < |a| ensures a[i] == b[i] {
      assert Codes(a)[i] == Codes(b)[i];
    }
  }

  /** `string.Equals(a, b, StringComparison.CurrentCultureIgnoreCase)`: the
      culture's case folding is a parameter; two strings are equal ignoring
      case exactly when their folds agree. Any equivalence relation on strings
      arises this way, so nothing is assumed about the culture. */
  predicate SameIgnoringCase(fold: string -> string, a: string, b: string) {
    fold(a) == fold(b)
  }
}
