/** Character-level helpers the relay relies on: ASCII case folding
    (`str.lower`), decimal rendering (f-string `{i}`), decimal parsing
    (`int(s, 10)`) and UTF-8 encoding (`str.encode('utf-8')`). */
module Text {

  import opened Results

  newtype byte = x: int | 0 <= x < 256

  predicate IsUpperAscii(c: char) { 'A' <= c <= 'Z' }

  predicate IsDigit(c: char) { '0' <= c <= '9' }

  predicate AllDigits(s: string) { forall i :: 0 <= i < |s| ==> IsDigit(s[i]) }

  /** Lower-case one character; only ASCII letters change. */
  function LowerChar(c: char): (r: char)
    ensures !IsUpperAscii(r)
    ensures IsUpperAscii(c) ==> r != c && r as int - c as int == 32
    ensures !IsUpperAscii(c) ==> r == c
  {
    if IsUpperAscii(c) then (c as int + 32) as char else c
  }

  /** `s.lower()`, restricted to ASCII case folding. */
  function Lower(s: string): (r: string)
    ensures |r| == |s|
    ensures forall i :: 0 <= i < |s| ==> !IsUpperAscii(r[i])
    ensures forall i :: 0 <= i < |s| && !IsUpperAscii(s[i]) ==> r[i] == s[i]
    ensures forall i :: 0 <= i < |s| && IsUpperAscii(s[i]) ==> r[i] as int == s[i] as int + 32
  {
    seq(|s|, i requires 0 <= i < |s| => LowerChar(s[i]))
  }

  /** Case-insensitive equality stated character by character. */
  predicate EqualIgnoringCase(s: string, t: string)
  {
    |s| == |t| && forall i :: 0 <= i < |s| ==> LowerChar(s[i]) == LowerChar(t[i])
  }

  /** Lowering `s` yields an already lower-case token `t` exactly when `s`
      and `t` agree up to case. */
  lemma LowerIsToken(s: string, t: string)
    requires forall i :: 0 <= i < |t| ==> !IsUpperAscii(t[i])
    ensures Lower(s) == t <==> EqualIgnoringCase(s, t)
  {
    if EqualIgnoringCase(s, t) {
      assert forall i :: 0 <= i < |s| ==> Lower(s)[i] == t[i];
    }
  }

  function DigitChar(d: nat): (c: char)
    requires d < 10
    ensures IsDigit(c)
  {
    ('0' as int + d) as char
  }

  function DigitValue(c: char): (d: nat)
    requires IsDigit(c)
    ensures d < 10 && DigitChar(d) == c
  {
    c as int - '0' as int
  }

  /** The decimal rendering of a natural number, as Python's `str(n)`. */
  function NatToDecimal(n: nat): (r: string)
    ensures 0 < |r| && AllDigits(r)
    ensures n < 10 <==> |r| == 1
    ensures r[0] == '0' <==> n == 0
    ensures 1 < |r| ==> r[0] != '0'
    decreases n
  {
    if n < 10 then [DigitChar(n)] else NatToDecimal(n / 10) + [DigitChar(n % 10)]
  }

  /** The value of a string of decimal digits (most significant first). */
  function DigitsValue(s: string): nat
    requires AllDigits(s)
    decreases |s|
  {
    if |s| == 0 then 0 else DigitsValue(s[..|s| - 1]) * 10 + DigitValue(s[|s| - 1])
  }

  /** Reading back a rendered natural number gives that number. */
  lemma {:induction false} NatToDecimalRoundTrip(n: nat)
    ensures DigitsValue(NatToDecimal(n)) == n
    decreases n
  {
    if n >= 10 {
      var s := NatToDecimal(n);
      assert s[..|s| - 1] == NatToDecimal(n / 10);
      NatToDecimalRoundTrip(n / 10);
      assert DigitValue(s[|s| - 1]) == n % 10;
    } else {
      assert DigitValue(NatToDecimal(n)[0]) == n;
    }
  }

  /** Distinct numbers render to distinct strings. */
  lemma NatToDecimalInjective(a: nat, b: nat)
    ensures NatToDecimal(a) == NatToDecimal(b) ==> a == b
  {
    NatToDecimalRoundTrip(a);
    NatToDecimalRoundTrip(b);
  }

  /** The decimal rendering of any integer, with a leading `-` when negative. */
  function IntToDecimal(x: int): (r: string)
    ensures 0 < |r|
    ensures x < 0 <==> r[0] == '-'
  {
    if x < 0 then "-" + NatToDecimal(-x) else NatToDecimal(x)
  }

  /** The texts `ParseInt` accepts: at least one ASCII digit, optionally
      after one sign character. */
  predicate IsIntText(s: string)
  {
    || (0 < |s| && AllDigits(s))
    || (1 < |s| && (s[0] == '-' || s[0] == '+') && AllDigits(s[1..]))
  }

  /** `int(s, 10)` on an optional sign followed by at least one ASCII
      digit; anything else is `None` (Python raises `ValueError`). */
  function ParseInt(s: string): (r: Option<int>)
    ensures r.Some? <==> IsIntText(s)
    ensures r.Some? && s[0] == '+' ==> r.value == DigitsValue(s[1..]) as int
    ensures r.Some? && s[0] == '-' ==> r.value == -(DigitsValue(s[1..]) as int)
    ensures AllDigits(s) && 0 < |s| ==> r == Some(DigitsValue(s) as int)
  {
    if 0 < |s| && (s[0] == '-' || s[0] == '+') then
      var digits := s[1..];
      if 0 < |digits| && AllDigits(digits) then
        var v: int := DigitsValue(digits);
        Some(if s[0] == '-' then -v else v)
      else None
    else if 0 < |s| && AllDigits(s) then Some(DigitsValue(s))
    else None
  }

  lemma ParseNegative(digits: string)
    requires 0 < |digits| && AllDigits(digits)
    ensures ParseInt("-" + digits) == Some(-(DigitsValue(digits) as int))
  {
    var s := "-" + digits;
    assert s[0] == '-';
    assert s[1..] == digits;
  }

  /** Parsing the rendering of any integer gives the integer back. */
  lemma IntToDecimalRoundTrip(x: int)
    ensures ParseInt(IntToDecimal(x)) == Some(x)
  {
    if x < 0 {
      var d := NatToDecimal(-x);
      NatToDecimalRoundTrip(-x);
      ParseNegative(d);
    } else {
      NatToDecimalRoundTrip(x);
    }
  }

  predicate IsContinuation(b: byte) { 0x80 <= b < 0xC0 }

  /** The length of a UTF-8 sequence, read off its lead byte. */
  function SequenceLength(lead: byte): nat
  {
    if lead < 0x80 then 1 else if lead < 0xE0 then 2 else if lead < 0xF0 then 3 else 4
  }

  /** The UTF-8 encoding of one Unicode scalar value. */
  function EncodeChar(c: char): (r: seq<byte>)
    ensures 1 <= |r| <= 4
    ensures !IsContinuation(r[0])
    ensures forall i :: 1 <= i < |r| ==> IsContinuation(r[i])
    ensures |r| == 1 <==> r[0] < 0x80
    ensures |r| == 1 <==> c as int < 0x80
    ensures SequenceLength(r[0]) == |r|
    ensures |r| == (if c as int < 0x80 then 1 else if c as int < 0x800 then 2 else if c as int < 0x1_0000 then 3 else 4)
  {
    var n := c as int;
    if n < 0x80 then [n as byte]
    else if n < 0x800 then [(0xC0 + n / 0x40) as byte, (0x80 + n % 0x40) as byte]
    else if n < 0x1_0000 then
      [(0xE0 + n / 0x1000) as byte, (0x80 + (n / 0x40) % 0x40) as byte, (0x80 + n % 0x40) as byte]
    else
      [(0xF0 + n / 0x4_0000) as byte, (0x80 + (n / 0x1000) % 0x40) as byte,
       (0x80 + (n / 0x40) % 0x40) as byte, (0x80 + n % 0x40) as byte]
  }

  /** The code point a well-formed UTF-8 sequence of one character denotes. */
  function DecodeValue(b: seq<byte>): int
    requires 1 <= |b| <= 4
  {
    if |b| == 1 then b[0] as int
    else if |b| == 2 then (b[0] as int - 0xC0) * 0x40 + (b[1] as int - 0x80)
    else if |b| == 3 then
      ((b[0] as int - 0xE0) * 0x40 + (b[1] as int - 0x80)) * 0x40 + (b[2] as int - 0x80)
    else
      (((b[0] as int - 0xF0) * 0x40 + (b[1] as int - 0x80)) * 0x40 + (b[2] as int - 0x80)) * 0x40
        + (b[3] as int - 0x80)
  }

  /** Decoding the encoding of a character gives back its code point. */
  lemma EncodeCharRoundTrip(c: char)
    ensures DecodeValue(EncodeChar(c)) == c as int
  {
    var n := c as int;
    if n < 0x80 {
    } else if n < 0x800 {
      assert (n / 0x40) * 0x40 + n % 0x40 == n;
    } else if n < 0x1_0000 {
      assert (n / 0x1000) * 0x40 + (n / 0x40) % 0x40 == n / 0x40;
      assert (n / 0x40) * 0x40 + n % 0x40 == n;
    } else {
      assert (n / 0x4_0000) * 0x40 + (n / 0x1000) % 0x40 == n / 0x1000;
      assert (n / 0x1000) * 0x40 + (n / 0x40) % 0x40 == n / 0x40;
      assert (n / 0x40) * 0x40 + n % 0x40 == n;
    }
  }

  /** `s.encode('utf-8')`. */
  function EncodeUtf8(s: string): (r: seq<byte>)
    ensures |s| <= |r| <= 4 * |s|
    ensures |r| == 0 <==> |s| == 0
    decreases |s|
  {
    if |s| == 0 then [] else EncodeChar(s[0]) + EncodeUtf8(s[1..])
  }

  /** A one-character string encodes to that character's sequence. */
  lemma EncodeUtf8Single(c: char)
    ensures EncodeUtf8([c]) == EncodeChar(c)
  {
    assert [c][1..] == [];
  }

  /** Encoding a concatenation concatenates the encodings, so each
      character of a string is written as `EncodeChar` writes it. */
  lemma {:induction false} EncodeUtf8Append(s: string, t: string)
    ensures EncodeUtf8(s + t) == EncodeUtf8(s) + EncodeUtf8(t)
    decreases |s|
  {
    if |s| > 0 {
      assert (s + t)[0] == s[0];
      assert (s + t)[1..] == s[1..] + t;
      EncodeUtf8Append(s[1..], t);
    } else {
      assert s + t == t;
    }
  }

  /** An ASCII string encodes to its own code units. */
  lemma {:induction false} EncodeUtf8Ascii(s: string)
    requires forall i :: 0 <= i < |s| ==> s[i] as int < 0x80
    ensures |EncodeUtf8(s)| == |s|
    ensures forall i :: 0 <= i < |s| ==> EncodeUtf8(s)[i] as int == s[i] as int
    decreases |s|
  {
    if |s| > 0 {
      EncodeUtf8Ascii(s[1..]);
    }
  }

  /** The code points of a string. */
  function CodePoints(s: string): (r: seq<int>)
    ensures |r| == |s|
  {
    seq(|s|, i requires 0 <= i < |s| => s[i] as int)
  }

  /** Reads UTF-8 bytes back as code points, one sequence at a time, its
      length taken from its lead byte; `None` when the last sequence is
      cut short. Lead and continuation bytes are not validated. */
  function DecodeUtf8(b: seq<byte>): Option<seq<int>>
    decreases |b|
  {
    if |b| == 0 then Some([])
    else
      var n := SequenceLength(b[0]);
      if |b| < n then None
      else
        match DecodeUtf8(b[n..])
        case None => None
        case Some(rest) => Some([DecodeValue(b[..n])] + rest)
  }

  /** Decoding the UTF-8 encoding of a string gives back its code points. */
  lemma {:induction false} EncodeUtf8RoundTrip(s: string)
    ensures DecodeUtf8(EncodeUtf8(s)) == Some(CodePoints(s))
    decreases |s|
  {
    if |s| > 0 {
      var e := EncodeChar(s[0]);
      var rest := EncodeUtf8(s[1..]);
      var b := e + rest;
      assert b == EncodeUtf8(s);
      assert b[0] == e[0];
      assert b[..|e|] == e && b[|e|..] == rest;
      EncodeCharRoundTrip(s[0]);
      EncodeUtf8RoundTrip(s[1..]);
      assert CodePoints(s) == [s[0] as int] + CodePoints(s[1..]);
    }
  }

  /** Different strings have different UTF-8 encodings. */
  lemma EncodeUtf8Injective(s: string, t: string)
    ensures EncodeUtf8(s) == EncodeUtf8(t) ==> s == t
  {
    EncodeUtf8RoundTrip(s);
    EncodeUtf8RoundTrip(t);
    if EncodeUtf8(s) == EncodeUtf8(t) {
      assert CodePoints(s) == CodePoints(t);
      assert forall i :: 0 <= i < |s| ==> s[i] as int == CodePoints(s)[i];
    }
  }
}
