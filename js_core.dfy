/**
 * The pieces of JavaScript number and string semantics that the party-game
 * engines depend on: 32-bit integer conversion, the remainder operator,
 * Number#toString with a radix, the UTF-16 view of a string, bitwise xor,
 * and the 31-multiplier rolling string hash that both the bingo seed and the
 * quiz password check use.
 */
module JsCore {

  datatype Option<T> = None | Some(value: T)

  /** No element occurs twice. */
  predicate Distinct<T(==)>(s: seq<T>)
  {
    forall i, j :: 0 <= i < j < |s| ==> s[i] != s[j]
  }

  const Two31: int := 0x8000_0000
  const Two32: int := 0x1_0000_0000

  predicate IsInt32(x: int) { -Two31 <= x < Two31 }

  function Abs(x: int): nat { if x < 0 then -x else x }

  // ---------------------------------------------------------------------------
  // Integer conversions and operators
  // ---------------------------------------------------------------------------

  /** ECMAScript ToInt32 on an integral number: what `x | 0` and `x & x` compute. */
  function ToInt32(x: int): (r: int)
    ensures IsInt32(r)
    ensures (x - r) % Two32 == 0
  {
    var m := x % Two32;
    if m >= Two31 then m - Two32 else m
  }

  lemma MulAtLeast(k: int, n: int)
    requires k >= 1 && n > 0
    ensures k * n >= n
  {
    assert k * n == (k - 1) * n + n;
  }

  lemma DivModIdentity(n: int, d: int)
    requires d > 0
    ensures (n / d) * d + n % d == n
  {
  }

  /** Euclidean division is unique: r in [0, n) with a == q * n + r is the remainder and q the quotient. */
  lemma DivModUnique(a: int, n: int, q: int, r: int)
    requires n > 0 && a == q * n + r && 0 <= r < n
    ensures a % n == r && a / n == q
  {
    var q', r' := a / n, a % n;
    assert q' * n + r' == a;
    if q > q' {
      assert (q - q') * n == q * n - q' * n;
      MulAtLeast(q - q', n);
      assert false;
    } else if q < q' {
      assert (q' - q) * n == q' * n - q * n;
      MulAtLeast(q' - q, n);
      assert false;
    }
  }

  /** Adding a multiple of n does not change the remainder modulo n. */
  lemma ModShift(x: int, q: int, n: int)
    requires n > 0
    ensures (q * n + x) % n == x % n
  {
    DivModUnique(q * n + x, n, q + x / n, x % n);
    assert q * n + x == (q + x / n) * n + x % n;
  }

  /** Congruence modulo n, written as divisibility of the difference. */
  lemma CongruentByMultiple(x: int, y: int, q: int, n: int)
    requires n > 0 && x == q * n + y
    ensures (x - y) % n == 0
  {
    DivModUnique(x - y, n, q, 0);
  }

  /** ToInt32 only depends on its argument modulo 2^32. */
  lemma ToInt32Congruent(x: int, y: int)
    requires (x - y) % Two32 == 0
    ensures ToInt32(x) == ToInt32(y)
  {
    var k := (x - y) / Two32;
    assert x == k * Two32 + y;
    ModShift(y, k, Two32);
  }

  /** ToInt32 leaves a value that is already a 32-bit integer alone. */
  lemma ToInt32OfInt32(x: int)
    requires IsInt32(x)
    ensures ToInt32(x) == x
  {
  }

  /** `x << 5` on numbers: the operand is converted with ToInt32 and the shifted bits are read back as a signed 32-bit integer. */
  function ShiftLeft5(x: int): (r: int)
    ensures IsInt32(r)
    ensures (r - 32 * x) % Two32 == 0
  {
    var a := ToInt32(x);
    var r := ToInt32(a * 32);
    var k := (x - a) / Two32;
    var j := (a * 32 - r) / Two32;
    assert x == k * Two32 + a;
    assert a * 32 == j * Two32 + r;
    assert r == (-j - 32 * k) * Two32 + 32 * x;
    CongruentByMultiple(r, 32 * x, -j - 32 * k, Two32);
    r
  }

  /** JavaScript `a % b` on integers: the remainder carries the sign of the dividend. */
  function JsRem(a: int, b: int): (r: int)
    requires b != 0
    ensures a >= 0 ==> 0 <= r < Abs(b)
    ensures a < 0 ==> 0 - Abs(b) < r <= 0
    ensures (a - r) % Abs(b) == 0
  {
    var m := Abs(b);
    if a >= 0 then
      DivModIdentity(a, m);
      CongruentByMultiple(a, a % m, a / m, m);
      a % m
    else
      DivModIdentity(-a, m);
      CongruentByMultiple(a, -((-a) % m), -((-a) / m), m);
      -((-a) % m)
  }

  // ---------------------------------------------------------------------------
  // Bitwise exclusive or
  // ---------------------------------------------------------------------------

  /** `a ^ b` for non-negative operands below 2^31, computed bit by bit. */
  function Xor(a: nat, b: nat): nat
    decreases a + b
  {
    if a == 0 && b == 0 then 0
    else 2 * Xor(a / 2, b / 2) + (if a % 2 == b % 2 then 0 else 1)
  }

  function Pow2(k: nat): (r: nat)
    ensures r >= 1
  {
    if k == 0 then 1 else 2 * Pow2(k - 1)
  }

  lemma {:induction false} XorZero(a: nat)
    ensures Xor(a, 0) == a
    decreases a
  {
    if a != 0 {
      XorZero(a / 2);
    }
  }

  /** Xor-ing twice with the same operand gives back the original value. */
  lemma {:induction false} XorSelfInverse(a: nat, b: nat)
    ensures Xor(Xor(a, b), b) == a
    decreases a + b
  {
    var x := Xor(a, b);
    if a == 0 && b == 0 {
    } else if x == 0 && b == 0 {
      XorZero(a);
    } else {
      var bit := if a % 2 == b % 2 then 0 else 1;
      assert x == 2 * Xor(a / 2, b / 2) + bit;
      DivModUnique(x, 2, Xor(a / 2, b / 2), bit);
      XorSelfInverse(a / 2, b / 2);
      var bit' := if bit == b % 2 then 0 else 1;
      assert bit' == a % 2;
      assert Xor(x, b) == 2 * Xor(Xor(a / 2, b / 2), b / 2) + bit';
    }
  }

  /** Xor of two k-bit values is a k-bit value. */
  lemma {:induction false} XorBelow(a: nat, b: nat, k: nat)
    requires a < Pow2(k) && b < Pow2(k)
    ensures Xor(a, b) < Pow2(k)
    decreases k
  {
    if a == 0 && b == 0 {
    } else if k == 0 {
    } else {
      XorBelow(a / 2, b / 2, k - 1);
    }
  }

  lemma Pow2Values()
    ensures Pow2(8) == 0x100 && Pow2(16) == 0x1_0000
  {
  }

  // ---------------------------------------------------------------------------
  // Number#toString(radix) and its inverse
  // ---------------------------------------------------------------------------

  predicate ValidRadix(radix: int) { 2 <= radix <= 16 }

  /** The digit character JavaScript prints for a digit value (lower-case letters from ten on). */
  function DigitChar(d: nat): char
    requires d < 16
  {
    if d < 10 then ('0' as int + d) as char else ('a' as int + d - 10) as char
  }

  function DigitValue(c: char): Option<nat>
  {
    if '0' <= c <= '9' then Some(c as int - '0' as int)
    else if 'a' <= c <= 'f' then Some(c as int - 'a' as int + 10)
    else None
  }

  lemma DigitValueOfChar(d: nat)
    requires d < 16
    ensures DigitValue(DigitChar(d)) == Some(d)
  {
  }

  /** The digits of a natural number in the given radix, most significant first, without leading zeros. */
  function NatDigits(n: nat, radix: int): (s: string)
    requires ValidRadix(radix)
    ensures |s| > 0
    decreases n
  {
    if n < radix then [DigitChar(n)]
    else NatDigits(n / radix, radix) + [DigitChar(n % radix)]
  }

  /** Number#toString(radix) for an integral number. */
  function NumberToString(n: int, radix: int): (s: string)
    requires ValidRadix(radix)
    ensures |s| > 0
  {
    if n < 0 then "-" + NatDigits(-n, radix) else NatDigits(n, radix)
  }

  /** Reads back a non-empty digit string, most significant digit first. */
  function ParseDigits(s: string, radix: int): Option<nat>
    requires ValidRadix(radix)
    decreases |s|
  {
    if |s| == 0 then None
    else
      var last := DigitValue(s[|s| - 1]);
      if last.None? || last.value >= radix then None
      else if |s| == 1 then Some(last.value)
      else
        match ParseDigits(s[..|s| - 1], radix)
        case None => None
        case Some(high) => Some(high * radix + last.value)
  }

  function ParseNumber(s: string, radix: int): Option<int>
    requires ValidRadix(radix)
  {
    if |s| > 0 && s[0] == '-' then
      match ParseDigits(s[1..], radix)
      case None => None
      case Some(v) => Some(-(v as int))
    else
      match ParseDigits(s, radix)
      case None => None
      case Some(v) => Some(v as int)
  }

  /** Appending the last digit of n to the digits of n / radix reads back as n. */
  lemma ParseDigitsSnoc(s: string, n: nat, radix: int)
    requires ValidRadix(radix)
    requires ParseDigits(s, radix) == Some(n / radix)
    ensures ParseDigits(s + [DigitChar(n % radix)], radix) == Some(n)
  {
    DigitValueOfChar(n % radix);
    var t := s + [DigitChar(n % radix)];
    assert t[..|t| - 1] == s;
    DivModIdentity(n, radix);
  }

  lemma {:induction false} NatDigitsRoundTrip(n: nat, radix: int)
    requires ValidRadix(radix)
    ensures ParseDigits(NatDigits(n, radix), radix) == Some(n)
    decreases n
  {
    if n < radix {
      DigitValueOfChar(n);
    } else {
      NatDigitsRoundTrip(n / radix, radix);
      ParseDigitsSnoc(NatDigits(n / radix, radix), n, radix);
    }
  }

  /** Printing a number and parsing it back gives the number. */
  lemma NumberToStringRoundTrip(n: int, radix: int)
    requires ValidRadix(radix)
    ensures ParseNumber(NumberToString(n, radix), radix) == Some(n)
  {
    var s := NumberToString(n, radix);
    if n < 0 {
      NatDigitsRoundTrip(-n, radix);
      assert s[1..] == NatDigits(-n, radix);
    } else {
      NatDigitsRoundTrip(n, radix);
      var d := NatDigits(n, radix);
      if n < radix {
        DigitValueOfChar(n);
      } else {
        DigitValueOfChar(n % radix);
      }
      assert d[|d| - 1] != '-';
      assert d[0] != '-' by {
        NatDigitsHead(n, radix);
      }
    }
  }

  lemma {:induction false} NatDigitsHead(n: nat, radix: int)
    requires ValidRadix(radix)
    ensures DigitValue(NatDigits(n, radix)[0]).Some?
    decreases n
  {
    if n < radix {
      DigitValueOfChar(n);
    } else {
      NatDigitsHead(n / radix, radix);
    }
  }

  /** Distinct numbers print as distinct strings. */
  lemma NumberToStringInjective(a: int, b: int, radix: int)
    requires ValidRadix(radix)
    ensures NumberToString(a, radix) == NumberToString(b, radix) ==> a == b
  {
    NumberToStringRoundTrip(a, radix);
    NumberToStringRoundTrip(b, radix);
  }

  // ---------------------------------------------------------------------------
  // The UTF-16 view of strings
  // ---------------------------------------------------------------------------

  type CodeUnit = x: int | 0 <= x < 0x1_0000

  /** A JavaScript string as the engine stores it: a sequence of UTF-16 code units. */
  type JsString = seq<CodeUnit>

  /** `charCodeAt(0)` of the one-character string holding `c`: the code point or its high surrogate. */
  function FirstUnit(c: char): CodeUnit
  {
    if c as int < 0x1_0000 then c as int else 0xD800 + (c as int - 0x1_0000) / 0x400
  }

  function CharUnits(c: char): (u: JsString)
    ensures 1 <= |u| <= 2 && u[0] == FirstUnit(c)
  {
    if c as int < 0x1_0000 then [c as int]
    else [0xD800 + (c as int - 0x1_0000) / 0x400, 0xDC00 + (c as int - 0x1_0000) % 0x400]
  }

  /** The code units a JavaScript string literal with these characters consists of. */
  function Utf16(s: string): (u: JsString)
    ensures |u| >= |s|
  {
    if s == [] then [] else CharUnits(s[0]) + Utf16(s[1..])
  }

  /** Every character fits in one byte: what `btoa` accepts. */
  predicate Latin1(s: string)
  {
    forall i :: 0 <= i < |s| ==> s[i] as int < 0x100
  }

  predicate Latin1Units(u: JsString)
  {
    forall i :: 0 <= i < |u| ==> u[i] < 0x100
  }

  /** For one-byte characters the UTF-16 view has one unit per character, equal to the character code. */
  lemma {:induction false} Utf16OfLatin1(s: string)
    requires Latin1(s)
    ensures |Utf16(s)| == |s|
    ensures forall i :: 0 <= i < |s| ==> Utf16(s)[i] == s[i] as int
  {
    if s != [] {
      Utf16OfLatin1(s[1..]);
      assert Utf16(s) == [s[0] as int] + Utf16(s[1..]);
    }
  }

  // ---------------------------------------------------------------------------
  // The rolling string hash
  // ---------------------------------------------------------------------------

  /** One step of `((h << 5) - h) + c`, reduced to 32 bits. */
  function HashStep(h: int, c: int): (r: int)
    ensures IsInt32(r)
  {
    ToInt32(ShiftLeft5(h) - h + c)
  }

  /** The shift-and-subtract step is multiplication by 31, modulo 2^32. */
  lemma HashStepIsTimes31(h: int, c: int)
    ensures HashStep(h, c) == ToInt32(31 * h + c)
  {
    ToInt32Congruent(ShiftLeft5(h) - h + c, 31 * h + c);
  }

  /** The hash of a code-unit string: the left fold of HashStep from 0. */
  function StringHash(u: seq<int>): (h: int)
    ensures IsInt32(h)
  {
    if |u| == 0 then 0 else HashStep(StringHash(u[..|u| - 1]), u[|u| - 1])
  }

  /** The polynomial the hash approximates: sum of u[i] * 31^(n-1-i), without any wrap-around. */
  function HashPolynomial(u: seq<int>): int
  {
    if |u| == 0 then 0 else 31 * HashPolynomial(u[..|u| - 1]) + u[|u| - 1]
  }

  /** One polynomial step keeps two values congruent modulo 2^32. */
  lemma PolyStepCongruent(p: int, h: int, c: int)
    requires (p - h) % Two32 == 0
    ensures ToInt32(31 * p + c) == ToInt32(31 * h + c)
  {
    var k := (p - h) / Two32;
    DivModIdentity(p - h, Two32);
    assert 31 * p + c == (31 * k) * Two32 + (31 * h + c);
    CongruentByMultiple(31 * p + c, 31 * h + c, 31 * k, Two32);
    ToInt32Congruent(31 * p + c, 31 * h + c);
  }

  /** The rolling hash is the polynomial hash reduced to a signed 32-bit integer. */
  lemma {:induction false} StringHashIsPolynomial(u: seq<int>)
    ensures StringHash(u) == ToInt32(HashPolynomial(u))
  {
    if |u| > 0 {
      var p := u[..|u| - 1];
      var c := u[|u| - 1];
      StringHashIsPolynomial(p);
      HashStepIsTimes31(StringHash(p), c);
      PolyStepCongruent(HashPolynomial(p), StringHash(p), c);
    }
  }
}
