/** Decimal and hexadecimal spellings of numbers, as the kernel prints them:
    reference definitions, the parsers that invert them, and the
    reversed-digit strings the C loops build before turning them round. */
module Numerals {
  import opened Machine

  function DigitChar(d: nat): char
    requires d < 10
  {
    ('0' as int + d) as char
  }

  predicate IsDigit(c: char)
  {
    '0' <= c <= '9'
  }

  function Reverse<T>(s: seq<T>): (r: seq<T>)
    ensures |r| == |s|
  {
    seq(|s|, p requires 0 <= p < |s| => s[|s| - 1 - p])
  }

  lemma ReverseAppend<T>(a: seq<T>, b: seq<T>)
    ensures Reverse(a + b) == Reverse(b) + Reverse(a)
  {
    assert forall p | 0 <= p < |a| + |b| :: Reverse(a + b)[p] == (Reverse(b) + Reverse(a))[p];
  }

  // ----- Decimal -----

  /** The decimal digits of n, most significant first, without leading zeros. */
  function Digits(n: nat): (s: string)
    ensures |s| >= 1 && forall i | 0 <= i < |s| :: IsDigit(s[i])
    ensures n > 0 ==> s[0] != '0'
  {
    if n < 10 then [DigitChar(n)] else Digits(n / 10) + [DigitChar(n % 10)]
  }

  /** The value of a string of decimal digits. */
  function NumberOf(s: string): int
  {
    if s == [] then 0 else NumberOf(s[..|s| - 1]) * 10 + (s[|s| - 1] as int - '0' as int)
  }

  lemma {:induction false} DigitsRoundTrip(n: nat)
    ensures NumberOf(Digits(n)) == n
  {
    if n >= 10 {
      DigitsRoundTrip(n / 10);
      var s := Digits(n);
      assert s[..|s| - 1] == Digits(n / 10);
    }
  }

  /** A number below 10^k has at most k digits. */
  lemma {:induction false} DigitsLength(n: nat, k: nat, bound: nat)
    requires 1 <= k && bound >= 1 && n < bound && bound <= Pow10(k)
    ensures |Digits(n)| <= k
  {
    if n >= 10 {
      DigitsLength(n / 10, k - 1, Pow10(k - 1));
    }
  }

  function Pow10(k: nat): (p: nat)
    ensures p >= 1
  {
    if k == 0 then 1 else 10 * Pow10(k - 1)
  }

  /** How int_to_string spells a value: a '-' exactly for negative values, then the digits of its magnitude. */
  function Decimal(v: int): string
  {
    if v < 0 then "-" + Digits(-v) else Digits(v)
  }

  function DecimalValue(s: string): int
  {
    if |s| > 0 && s[0] == '-' then -NumberOf(s[1..]) else NumberOf(s)
  }

  lemma DecimalRoundTrip(v: int)
    ensures DecimalValue(Decimal(v)) == v
  {
    if v < 0 {
      DigitsRoundTrip(-v);
      assert Decimal(v)[1..] == Digits(-v);
    } else {
      DigitsRoundTrip(v);
    }
  }

  /** Every 32-bit value takes at most 11 characters: a sign and 10 digits. */
  lemma DecimalLength(v: int)
    requires IsI32(v)
    ensures |Decimal(v)| <= 11
    ensures v >= 0 ==> |Decimal(v)| <= 10
  {
    assert Pow10(10) == 10_000_000_000;
    if v < 0 {
      DigitsLength(-v, 10, Pow10(10));
    } else {
      DigitsLength(v, 10, Pow10(10));
    }
  }

  /** The digits of n, least significant first, as `num % 10` peels them off; empty for 0. */
  function RevDigits(n: nat): string
  {
    if n == 0 then [] else [DigitChar(n % 10)] + RevDigits(n / 10)
  }

  lemma {:induction false} RevDigitsReversed(n: nat)
    requires n > 0
    ensures Reverse(RevDigits(n)) == Digits(n)
  {
    if n >= 10 {
      RevDigitsReversed(n / 10);
      ReverseAppend([DigitChar(n % 10)], RevDigits(n / 10));
    } else {
      assert RevDigits(n) == [DigitChar(n)];
    }
  }

  /** What int_to_string builds before its final reversal: the digits of
      the magnitude least significant first, then '-' for a negative value. */
  lemma RevDecimal(v: int)
    requires v != 0
    ensures Reverse(RevDigits(if v < 0 then -v else v) + (if v < 0 then "-" else "")) == Decimal(v)
  {
    var m := if v < 0 then -v else v;
    RevDigitsReversed(m);
    ReverseAppend(RevDigits(m), if v < 0 then "-" else "");
  }

  // ----- Hexadecimal -----

  /** `(digit < 10) ? ('0' + digit) : ('A' + digit - 10)`. */
  function HexDigit(d: nat): char
    requires d < 16
  {
    if d < 10 then ('0' as int + d) as char else ('A' as int + d - 10) as char
  }

  function HexDigitValue(c: char): nat
  {
    if '0' <= c <= '9' then c as int - '0' as int
    else if 'A' <= c <= 'F' then c as int - 'A' as int + 10
    else 0
  }

  function Pow16(k: nat): (p: nat)
    ensures p >= 1
  {
    if k == 0 then 1 else 16 * Pow16(k - 1)
  }

  /** The low n hex digits of a, most significant first, in upper case. */
  function Hex(a: nat, n: nat): (s: string)
    ensures |s| == n
  {
    if n == 0 then [] else Hex(a / 16, n - 1) + [HexDigit(a % 16)]
  }

  function HexValue(s: string): nat
  {
    if s == [] then 0 else HexValue(s[..|s| - 1]) * 16 + HexDigitValue(s[|s| - 1])
  }

  /** Dividing by 16 and then by c is dividing by 16 * c. */
  lemma DivMod16(a: nat, c: nat)
    requires c >= 1
    ensures a / 16 / c == a / (16 * c)
    ensures a % (16 * c) == 16 * (a / 16 % c) + a % 16
  {
    var q, r := a / 16, a % 16;
    var t, u := q / c, q % c;
    assert a == 16 * c * t + (16 * u + r);
    assert 0 <= 16 * u + r < 16 * c;
    DivUnique(a, 16 * c, t, 16 * u + r);
  }

  lemma DivUnique(a: int, d: int, t: int, r: int)
    requires d > 0 && a == d * t + r && 0 <= r < d
    ensures a / d == t && a % d == r
  {
    var t', r' := a / d, a % d;
    assert a == d * t' + r';
    if t' > t {
      assert d * t' >= d * (t + 1) by { MulMono(d, t + 1, t'); }
    } else if t' < t {
      assert d * t >= d * (t' + 1) by { MulMono(d, t' + 1, t); }
    }
  }

  lemma MulMono(d: int, x: int, y: int)
    requires d > 0 && x <= y
    ensures d * x <= d * y
  {
  }

  /** Digit j (counting from the least significant) of Hex(a, n) is `(a >> 4j) & 0xF`. */
  lemma {:induction false} HexAt(a: nat, n: nat, j: nat)
    requires j < n
    ensures a / Pow16(j) % 16 < 16
    ensures Hex(a, n)[n - 1 - j] == HexDigit(a / Pow16(j) % 16)
  {
    if j > 0 {
      HexAt(a / 16, n - 1, j - 1);
      DivMod16(a, Pow16(j - 1));
    }
  }

  lemma {:induction false} HexRoundTrip(a: nat, n: nat)
    ensures HexValue(Hex(a, n)) == a % Pow16(n)
  {
    if n > 0 {
      HexRoundTrip(a / 16, n - 1);
      var s := Hex(a, n);
      assert s[..|s| - 1] == Hex(a / 16, n - 1);
      assert HexDigitValue(HexDigit(a % 16)) == a % 16;
      DivMod16(a, Pow16(n - 1));
    }
  }

  /** Eight hex digits spell any 32-bit address exactly. */
  lemma Hex8RoundTrip(a: nat)
    requires a < WORD_MOD
    ensures HexValue(Hex(a, 8)) == a
  {
    HexRoundTrip(a, 8);
    assert Pow16(8) == WORD_MOD;
  }
}
