/**
 * The browser's `btoa` and `atob`: the base 64 encoding of section 4 of
 * RFC 4648 (with `=` padding) over strings whose code units are bytes, and
 * the forgiving decoder browsers use, which ignores ASCII whitespace, accepts
 * missing padding and fails on any other character.
 */
module Base64 {
  import opened JsCore

  predicate IsBytes(b: seq<int>)
  {
    forall i :: 0 <= i < |b| ==> 0 <= b[i] < 0x100
  }

  predicate IsSextets(d: seq<int>)
  {
    forall i :: 0 <= i < |d| ==> 0 <= d[i] < 64
  }

  /** The alphabet of Table 1 in RFC 4648. */
  function EncodeDigit(d: int): (c: char)
    requires 0 <= d < 64
    ensures c != '='
  {
    if d < 26 then ('A' as int + d) as char
    else if d < 52 then ('a' as int + d - 26) as char
    else if d < 62 then ('0' as int + d - 52) as char
    else if d == 62 then '+'
    else '/'
  }

  function DecodeDigit(c: char): (d: Option<int>)
    ensures d.Some? ==> 0 <= d.value < 64
  {
    if 'A' <= c <= 'Z' then Some(c as int - 'A' as int)
    else if 'a' <= c <= 'z' then Some(c as int - 'a' as int + 26)
    else if '0' <= c <= '9' then Some(c as int - '0' as int + 52)
    else if c == '+' then Some(62)
    else if c == '/' then Some(63)
    else None
  }

  lemma DecodeEncodeDigit(d: int)
    requires 0 <= d < 64
    ensures DecodeDigit(EncodeDigit(d)) == Some(d)
  {
  }

  // ---------------------------------------------------------------------------
  // Encoding
  // ---------------------------------------------------------------------------

  /** The four 6-bit digits of three bytes. */
  function EncodeGroup(b0: int, b1: int, b2: int): (d: seq<int>)
    requires 0 <= b0 < 0x100 && 0 <= b1 < 0x100 && 0 <= b2 < 0x100
    ensures |d| == 4 && IsSextets(d)
  {
    [b0 / 4, (b0 % 4) * 16 + b1 / 16, (b1 % 16) * 4 + b2 / 64, b2 % 64]
  }

  /** The 6-bit groups of a byte string: three bytes give four digits, a final one or two bytes give two or three zero-filled digits. */
  function Sextets(b: seq<int>): (d: seq<int>)
    requires IsBytes(b)
    ensures IsSextets(d)
    ensures |d| == 4 * (|b| / 3) + (if |b| % 3 == 0 then 0 else |b| % 3 + 1)
    decreases |b|
  {
    if |b| == 0 then []
    else if |b| == 1 then [b[0] / 4, (b[0] % 4) * 16]
    else if |b| == 2 then [b[0] / 4, (b[0] % 4) * 16 + b[1] / 16, (b[1] % 16) * 4]
    else EncodeGroup(b[0], b[1], b[2]) + Sextets(b[3..])
  }

  function Padding(n: nat): string
  {
    if n % 3 == 1 then "==" else if n % 3 == 2 then "=" else ""
  }

  /** Every digit of an encoding reads back as its sextet. */
  lemma DecodeEncodeDigits(d: seq<int>)
    requires IsSextets(d)
    ensures forall i :: 0 <= i < |d| ==> DecodeDigit(EncodeDigit(d[i])) == Some(d[i])
  {
    forall i | 0 <= i < |d|
      ensures DecodeDigit(EncodeDigit(d[i])) == Some(d[i])
    {
      DecodeEncodeDigit(d[i]);
    }
  }

  /** The sextets written as alphabet characters: each character decodes to its sextet and none is padding. */
  function DigitChars(d: seq<int>): (s: string)
    requires IsSextets(d)
    ensures |s| == |d|
    ensures forall i :: 0 <= i < |d| ==> s[i] == EncodeDigit(d[i])
    ensures forall i :: 0 <= i < |s| ==> DecodeDigit(s[i]) == Some(d[i]) && s[i] != '='
  {
    DecodeEncodeDigits(d);
    seq(|d|, i requires 0 <= i < |d| => EncodeDigit(d[i]))
  }

  /** Base 64 encoding with padding, as in section 4 of RFC 4648. */
  function Encode(b: seq<int>): (s: string)
    requires IsBytes(b)
    ensures |s| % 4 == 0
  {
    PaddedLength(|b|);
    DigitChars(Sextets(b)) + Padding(|b|)
  }

  /** The digits of `n` bytes and their padding fill whole groups of four characters. */
  lemma PaddedLength(n: nat)
    ensures (4 * (n / 3) + (if n % 3 == 0 then 0 else n % 3 + 1) + |Padding(n)|) % 4 == 0
  {
    var q := n / 3 + (if n % 3 == 0 then 0 else 1);
    assert 4 * (n / 3) + (if n % 3 == 0 then 0 else n % 3 + 1) + |Padding(n)| == q * 4 + 0;
    DivModUnique(q * 4, 4, q, 0);
  }

  /** `btoa`: a string whose code units all fit in a byte is encoded; any other string raises an error. */
  function Btoa(u: JsString): (r: Option<string>)
    ensures r.Some? <==> Latin1Units(u)
  {
    if Latin1Units(u) then Some(Encode(u)) else None
  }

  // ---------------------------------------------------------------------------
  // Forgiving decoding
  // ---------------------------------------------------------------------------

  /** TAB, LF, FF, CR and SPACE. */
  predicate IsAsciiWhitespace(c: char)
  {
    c == '\t' || c == '\n' || c as int == 0x0C || c == '\r' || c == ' '
  }

  function StripWhitespace(s: string): (t: string)
    ensures forall i :: 0 <= i < |t| ==> !IsAsciiWhitespace(t[i])
  {
    if s == [] then []
    else if IsAsciiWhitespace(s[0]) then StripWhitespace(s[1..])
    else [s[0]] + StripWhitespace(s[1..])
  }

  /** When the length is a multiple of four, one or two trailing `=` are dropped. */
  function RemovePadding(s: string): string
  {
    if |s| % 4 != 0 || |s| == 0 || s[|s| - 1] != '=' then s
    else if |s| >= 2 && s[|s| - 2] == '=' then s[..|s| - 2]
    else s[..|s| - 1]
  }

  /** The digit values of a string, or None when some character is outside the alphabet. */
  function DigitsOf(s: string): (r: Option<seq<int>>)
    ensures r.Some? ==> |r.value| == |s| && IsSextets(r.value)
  {
    if s == [] then Some([])
    else
      match DecodeDigit(s[0])
      case None => None
      case Some(d) =>
        match DigitsOf(s[1..])
        case None => None
        case Some(rest) => Some([d] + rest)
  }

  /** The three bytes of four 6-bit digits. */
  function DecodeGroup(d0: int, d1: int, d2: int, d3: int): (b: seq<int>)
    requires 0 <= d0 < 64 && 0 <= d1 < 64 && 0 <= d2 < 64 && 0 <= d3 < 64
    ensures |b| == 3 && IsBytes(b)
  {
    [d0 * 4 + d1 / 16, (d1 % 16) * 16 + d2 / 4, (d2 % 4) * 64 + d3]
  }

  /** Reassembles bytes from 6-bit groups; the leftover bits of a final partial group are dropped. */
  function DecodeSextets(d: seq<int>): (b: seq<int>)
    requires IsSextets(d) && |d| % 4 != 1
    ensures IsBytes(b)
    decreases |d|
  {
    if |d| >= 4 then
      DecodeGroup(d[0], d[1], d[2], d[3]) + DecodeSextets(d[4..])
    else if |d| == 3 then [d[0] * 4 + d[1] / 16, (d[1] % 16) * 16 + d[2] / 4]
    else if |d| == 2 then [d[0] * 4 + d[1] / 16]
    else []
  }

  /** `atob`: the forgiving-base64 decode of the HTML standard; None stands for the error it raises. */
  function Atob(s: string): (r: Option<JsString>)
    ensures r.Some? ==> Latin1Units(r.value)
  {
    var t := RemovePadding(StripWhitespace(s));
    if |t| % 4 == 1 then None
    else
      match DigitsOf(t)
      case None => None
      case Some(d) => Some(DecodeSextets(d))
  }

  // ---------------------------------------------------------------------------
  // Round trip
  // ---------------------------------------------------------------------------

  lemma {:induction false} StripWhitespaceNoop(s: string)
    requires forall i :: 0 <= i < |s| ==> !IsAsciiWhitespace(s[i])
    ensures StripWhitespace(s) == s
  {
    if s != [] {
      StripWhitespaceNoop(s[1..]);
    }
  }

  lemma {:induction false} DigitsOfDigitChars(d: seq<int>)
    requires IsSextets(d)
    ensures DigitsOf(DigitChars(d)) == Some(d)
  {
    if d != [] {
      var s := DigitChars(d);
      DecodeEncodeDigit(d[0]);
      DigitsOfDigitChars(d[1..]);
      assert s[0] == EncodeDigit(d[0]);
      assert s[1..] == DigitChars(d[1..]);
      assert d == [d[0]] + d[1..];
    }
  }

  /** One group of three bytes survives encoding and decoding. */
  lemma GroupRoundTrip(b0: int, b1: int, b2: int)
    requires 0 <= b0 < 0x100 && 0 <= b1 < 0x100 && 0 <= b2 < 0x100
    ensures var d := EncodeGroup(b0, b1, b2);
            DecodeGroup(d[0], d[1], d[2], d[3]) == [b0, b1, b2]
  {
    var d1 := (b0 % 4) * 16 + b1 / 16;
    var d2 := (b1 % 16) * 4 + b2 / 64;
    DivModUnique(d1, 16, b0 % 4, b1 / 16);
    DivModUnique(d2, 4, b1 % 16, b2 / 64);
    DivModIdentity(b0, 4);
    DivModIdentity(b1, 16);
    DivModIdentity(b2, 64);
  }

  /** The leading bytes of a partial final group survive encoding and decoding. */
  lemma PartialGroupRoundTrip(b0: int, b1: int)
    requires 0 <= b0 < 0x100 && 0 <= b1 < 0x100
    ensures var d1 := (b0 % 4) * 16 + b1 / 16;
            var d2 := (b1 % 16) * 4;
            (b0 / 4) * 4 + d1 / 16 == b0 && (d1 % 16) * 16 + d2 / 4 == b1
  {
    var d1 := (b0 % 4) * 16 + b1 / 16;
    DivModUnique(d1, 16, b0 % 4, b1 / 16);
    DivModUnique((b1 % 16) * 4, 4, b1 % 16, 0);
    DivModIdentity(b0, 4);
    DivModIdentity(b1, 16);
  }

  lemma SextetsLength(b: seq<int>)
    requires IsBytes(b)
    ensures |Sextets(b)| % 4 != 1
  {
    var k := |b| / 3;
    var r := if |b| % 3 == 0 then 0 else |b| % 3 + 1;
    assert |Sextets(b)| == k * 4 + r;
    DivModUnique(|Sextets(b)|, 4, k, r);
  }

  /** Decoding the first group of a byte string's sextets gives back its first three bytes. */
  lemma DecodeFirstGroup(b: seq<int>)
    requires IsBytes(b) && |b| >= 3
    ensures |Sextets(b[3..])| % 4 != 1
    ensures DecodeSextets(Sextets(b)) == b[..3] + DecodeSextets(Sextets(b[3..]))
  {
    SextetsLength(b[3..]);
    GroupRoundTrip(b[0], b[1], b[2]);
    var g := EncodeGroup(b[0], b[1], b[2]);
    var rest := Sextets(b[3..]);
    var d := Sextets(b);
    assert d == g + rest;
    assert d[4..] == rest;
    assert d[0] == g[0] && d[1] == g[1] && d[2] == g[2] && d[3] == g[3];
    assert b[..3] == [b[0], b[1], b[2]];
  }

  lemma {:induction false} DecodeSextetsOfSextets(b: seq<int>)
    requires IsBytes(b)
    ensures |Sextets(b)| % 4 != 1
    ensures DecodeSextets(Sextets(b)) == b
    decreases |b|
  {
    SextetsLength(b);
    if |b| >= 3 {
      DecodeSextetsOfSextets(b[3..]);
      DecodeFirstGroup(b);
      assert b == b[..3] + b[3..];
    } else if |b| == 2 {
      PartialGroupRoundTrip(b[0], b[1]);
    } else if |b| == 1 {
      PartialGroupRoundTrip(b[0], 0);
    }
  }

  lemma RemovePaddingOfEncode(b: seq<int>)
    requires IsBytes(b)
    ensures RemovePadding(Encode(b)) == DigitChars(Sextets(b))
  {
    var e := DigitChars(Sextets(b));
    var s := Encode(b);
    if |b| % 3 == 1 {
      assert s == e + "==";
      assert s[..|s| - 2] == e;
    } else if |b| % 3 == 2 {
      assert s == e + "=";
      assert s[|s| - 2] == e[|e| - 1] != '=';
      assert s[..|s| - 1] == e;
    } else {
      assert s == e;
      assert |s| > 0 ==> s[|s| - 1] == EncodeDigit(Sextets(b)[|e| - 1]) != '=';
    }
  }

  /** `atob(btoa(x)) == x` for every string that `btoa` accepts. */
  lemma AtobBtoa(u: JsString)
    requires Latin1Units(u)
    ensures Btoa(u).Some?
    ensures Atob(Btoa(u).value) == Some(u)
  {
    var s := Encode(u);
    var e := DigitChars(Sextets(u));
    assert forall i :: 0 <= i < |s| ==> !IsAsciiWhitespace(s[i]) by {
      forall i | 0 <= i < |s| ensures !IsAsciiWhitespace(s[i]) {
        if i < |e| {
          assert s[i] == EncodeDigit(Sextets(u)[i]);
        } else {
          assert s[i] == Padding(|u|)[i - |e|] == '=';
        }
      }
    }
    StripWhitespaceNoop(s);
    RemovePaddingOfEncode(u);
    DecodeSextetsOfSextets(u);
    DigitsOfDigitChars(Sextets(u));
  }
}
