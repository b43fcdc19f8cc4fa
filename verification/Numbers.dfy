/** uitoa and itoa: digits are produced lowest first and reversed in place. */
module Numbers {
  import opened Bytes

  const ZERO: byte := 0x30
  const LETTER_A: byte := 0x61
  const MINUS: byte := 0x2D

  type Base = b: int | 2 <= b <= 36 witness 10

  function Digit(d: int): byte
    requires 0 <= d < 36
  {
    if d > 9 then d - 10 + LETTER_A else d + ZERO
  }

  // The digits of `v`, highest first; none for 0.
  function Digits(v: nat, base: Base): seq<byte>
    decreases v
  {
    if v == 0 then [] else Digits(v / base, base) + [Digit(v % base)]
  }

  function Numeral(v: nat, base: Base): seq<byte> { if v == 0 then [ZERO] else Digits(v, base) }
  // ----- Reading a numeral back -----

  predicate IsDigit(c: byte, base: Base) {
    (0x30 <= c <= 0x39 && c - 0x30 < base) || 0x61 <= c < 0x61 + base - 10
  }

  function DigitValue(c: byte): int { if c >= 0x61 then c - 0x61 + 10 else c - 0x30 }

  function Parse(s: seq<byte>, base: Base): int {
    if s == [] then 0 else Parse(s[..|s| - 1], base) * base + DigitValue(s[|s| - 1])
  }

  // A numeral as people write it: digits of the base, no leading zero, not empty.
  predicate Proper(s: seq<byte>, base: Base) {
    s != [] && (forall i :: 0 <= i < |s| ==> IsDigit(s[i], base)) && (s[0] == 0x30 ==> |s| == 1)
  }

  lemma DivBounds(v: nat, base: Base)
    requires v > 0
    ensures 0 <= v / base < v && v == v / base * base + v % base && (v / base == 0 ==> v % base == v)
  {
  }

  lemma DigitIsDigit(d: int, base: Base)
    requires 0 <= d < base
    ensures IsDigit(Digit(d), base) && DigitValue(Digit(d)) == d && (Digit(d) == ZERO <==> d == 0)
  {
  }

  lemma {:induction false} DigitsParse(v: nat, base: Base)
    ensures Parse(Digits(v, base), base) == v
    ensures forall i :: 0 <= i < |Digits(v, base)| ==> IsDigit(Digits(v, base)[i], base)
    ensures v > 0 ==> Digits(v, base) != [] && Digits(v, base)[0] != ZERO
    decreases v
  {
    if v == 0 {
    } else {
      var q, d := v / base, v % base;
      DivBounds(v, base);
      DigitsParse(q, base);
      DigitIsDigit(d, base);
      var front := Digits(q, base);
      var s := front + [Digit(d)];
      assert s[..|s| - 1] == front && s[|s| - 1] == Digit(d);
      assert Parse(s, base) == q * base + d;
      if q == 0 { assert s == [Digit(d)]; }
    }
  }

  // Printing is invertible: the numeral is proper and parses back to the value.
  lemma NumeralParses(v: nat, base: Base)
    ensures Proper(Numeral(v, base), base) && Parse(Numeral(v, base), base) == v
  {
    DigitsParse(v, base);
    if v == 0 { assert [ZERO][..0] == []; }
  }

  lemma MulMono(a: int, b: int, n: nat)
    ensures a <= b ==> a * n <= b * n
  {
    assert b * n - a * n == (b - a) * n;
  }

  lemma QuotientUnique(base: Base, q: int, r: int, q': int, r': int)
    requires 0 <= r < base && 0 <= r' < base && q * base + r == q' * base + r'
    ensures q == q' && r == r'
  {
    MulMono(q + 1, q', base);
    MulMono(q' + 1, q, base);
    assert (q + 1) * base == q * base + base && (q' + 1) * base == q' * base + base;
  }

  // Multiplying by the base and adding a digit appends that digit.
  lemma DigitAppended(q: nat, d: int, base: Base)
    requires 0 <= d < base && (q > 0 || d > 0)
    ensures q * base + d > 0 && Digits(q * base + d, base) == Digits(q, base) + [Digit(d)]
  {
    var x := q * base + d;
    MulMono(1, q, base);
    QuotientUnique(base, q, d, x / base, x % base);
  }

  lemma {:induction false} ParsePositive(s: seq<byte>, base: Base)
    requires s != [] && s[0] != ZERO && forall i :: 0 <= i < |s| ==> IsDigit(s[i], base)
    ensures Parse(s, base) > 0 && Digits(Parse(s, base), base) == s
  {
    var n := |s| - 1;
    var front, d := s[..n], DigitValue(s[n]);
    assert IsDigit(s[n], base);
    assert 0 <= d < base && Digit(d) == s[n];
    if n == 0 {
      assert front == [] && [s[0]] == s;
      DigitAppended(0, d, base);
    } else {
      ParsePositive(front, base);
      DigitAppended(Parse(front, base), d, base);
      assert front + [s[n]] == s;
    }
  }

  // Conversely every proper numeral is the one that is printed for its value.
  lemma ProperIsPrinted(s: seq<byte>, base: Base)
    requires Proper(s, base)
    ensures Parse(s, base) >= 0 && Numeral(Parse(s, base), base) == s
  {
    if s[0] == ZERO {
      assert s[..0] == [] && s == [ZERO];
    } else {
      ParsePositive(s, base);
    }
  }

  function Power(base: nat, n: nat): nat { if n == 0 then 1 else base * Power(base, n - 1) }

  // n digits are enough for every value below base^n.
  lemma {:induction false} DigitsFit(v: nat, base: Base, n: nat)
    requires v < Power(base, n)
    ensures |Digits(v, base)| <= n
    decreases n
  {
    if v == 0 {
    } else {
      var q, p := v / base, Power(base, n - 1);
      DivBounds(v, base);
      MulMono(p, q, base);
      assert v < base * p == p * base;
      DigitsFit(q, base, n - 1);
    }
  }

  lemma Power10()
    ensures Power(10, 10) == 10_000_000_000
  {
    assert Power(10, 5) == 100_000;
    assert Power(10, 10) == 10 * (10 * (10 * (10 * (10 * Power(10, 5)))));
  }

  lemma DecimalFits(v: u32)
    ensures |Numeral(v, 10)| <= 10
  {
    Power10();
    DigitsFit(v, 10, 10);
  }

  lemma HexFits(v: u32)
    ensures |Numeral(v, 16)| <= 8
  {
    assert Power(16, 4) == 0x1_0000;
    assert Power(16, 8) == 16 * (16 * (16 * (16 * Power(16, 4))));
    DigitsFit(v, 16, 8);
  }
  // ----- The code -----

  function Reversed(s: seq<byte>): (r: seq<byte>)
    ensures |r| == |s| && forall k :: 0 <= k < |s| ==> r[k] == s[|s| - 1 - k]
  {
    seq(|s|, k requires 0 <= k < |s| => s[|s| - 1 - k])
  }

  method Reverse(str: array<byte>, len: nat)
    requires 1 <= len <= str.Length
    modifies str
    ensures str[..len] == Reversed(old(str[..len]))
    ensures forall k :: len <= k < str.Length ==> str[k] == old(str[k])
  {
    var start, end := 0, len - 1;
    while start < end
      invariant 0 <= start && start + end == len - 1 && end >= start - 1
      invariant forall k :: 0 <= k < start ==> str[k] == old(str[len - 1 - k]) && str[len - 1 - k] == old(str[k])
      invariant forall k :: start <= k <= end ==> str[k] == old(str[k])
      invariant forall k :: len <= k < str.Length ==> str[k] == old(str[k])
    {
      var temp := str[start];
      str[start] := str[end];
      str[end] := temp;
      start := start + 1;
      end := end - 1;
    }
    assert forall k :: 0 <= k < len ==> str[k] == old(str[len - 1 - k]) by {
      forall k | 0 <= k < len ensures str[k] == old(str[len - 1 - k]) {
        if k > end { assert str[len - 1 - (len - 1 - k)] == str[k]; }
      }
    }
  }

  // One division, and the digit it yields.
  method DivMod(v: nat, base: Base) returns (quotient: nat, rem: nat)
    requires v > 0
    ensures quotient < v && rem < base && Digits(v, base) == Digits(quotient, base) + [Digit(rem)]
    ensures v == quotient * base + rem
  {
    DivBounds(v, base);
    quotient, rem := v / base, v % base;
  }

  // The digit loop shared by both routines: lowest digit first from `str[0]` on.
  method PutDigits(value: nat, str: array<byte>, base: Base) returns (i: nat)
    requires |Digits(value, base)| <= str.Length
    modifies str
    ensures i == |Digits(value, base)| && str[..i] == Reversed(Digits(value, base))
    ensures forall k :: i <= k < str.Length ==> str[k] == old(str[k])
  {
    ghost var all := Digits(value, base);
    var v := value;
    i := 0;
    while v != 0
      invariant i <= |all| && v >= 0 && Digits(v, base) == all[..|all| - i]
      invariant forall k :: 0 <= k < i ==> str[k] == all[|all| - 1 - k]
      invariant forall k :: i <= k < str.Length ==> str[k] == old(str[k])
      decreases v
    {
      var quotient, rem := DivMod(v, base);
      assert all[..|all| - i] == Digits(quotient, base) + [Digit(rem)];
      str[i] := Digit(rem);
      v := quotient;
      i := i + 1;
    }
  }

  // The terminator, and the digits turned round.
  method Finish(str: array<byte>, i: nat)
    requires 1 <= i < str.Length
    modifies str
    ensures str[..i] == Reversed(old(str[..i])) && str[i] == 0
    ensures forall k :: i < k < str.Length ==> str[k] == old(str[k])
  {
    str[i] := 0;
    assert str[..i] == old(str[..i]);
    Reverse(str, i);
  }

  lemma ReversedTwice(digits: seq<byte>)
    ensures Reversed(Reversed(digits)) == digits
  {
  }

  method UnsignedToText(value: u32, str: array<byte>, base: Base)
    requires |Numeral(value, base)| < str.Length
    modifies str
    ensures var s := Numeral(value, base); str[..|s|] == s && str[|s|] == 0
    ensures forall k :: |Numeral(value, base)| < k < str.Length ==> str[k] == old(str[k])
  {
    if value == 0 {
      str[0] := ZERO;
      str[1] := 0;
      return;
    }
    var i := PutDigits(value, str, base);
    DigitsParse(value, base);
    ReversedTwice(Digits(value, base));
    Finish(str, i);
  }

  // What itoa prints: a sign for negative values in base 10.
  function SignedNumeral(value: int, base: Base): seq<byte> {
    if value < 0 then [MINUS] + Numeral(-value, base) else Numeral(value, base)
  }

  // Digits and, for a negative value, the sign, all backwards.
  method PutSigned(value: int, str: array<byte>, base: Base) returns (i: nat)
    requires value != 0 && (value < 0 ==> base == 10)
    requires |SignedNumeral(value, base)| < str.Length
    modifies str
    ensures i == |SignedNumeral(value, base)| && i >= 1 && str[..i] == Reversed(SignedNumeral(value, base))
    ensures forall k :: i <= k < str.Length ==> str[k] == old(str[k])
  {
    var isNegative := value < 0 && base == 10;
    var magnitude := if isNegative then -value else value;
    i := PutDigits(magnitude, str, base);
    DigitsParse(magnitude, base);
    if isNegative {
      str[i] := MINUS;
      i := i + 1;
    }
  }

  method IntegerToText(value: int, str: array<byte>, base: Base)
    requires -0x8000_0000 < value < 0x8000_0000 && (value < 0 ==> base == 10)
    requires |SignedNumeral(value, base)| < str.Length
    modifies str
    ensures var s := SignedNumeral(value, base); str[..|s|] == s && str[|s|] == 0
    ensures forall k :: |SignedNumeral(value, base)| < k < str.Length ==> str[k] == old(str[k])
  {
    if value == 0 {
      str[0] := ZERO;
      str[1] := 0;
      return;
    }
    var i := PutSigned(value, str, base);
    ReversedTwice(SignedNumeral(value, base));
    Finish(str, i);
  }

  // A signed decimal reads back too.
  function ParseSigned(s: seq<byte>): int {
    if s != [] && s[0] == 0x2D then -Parse(s[1..], 10) else Parse(s, 10)
  }

  lemma SignedRoundTrip(value: int)
    ensures ParseSigned(SignedNumeral(value, 10)) == value
    ensures -0x8000_0000 < value < 0x8000_0000 ==> |SignedNumeral(value, 10)| <= 11
  {
    var magnitude := if value < 0 then -value else value;
    NumeralParses(magnitude, 10);
    if magnitude < 0x8000_0000 { DecimalFits(magnitude); }
    var s := SignedNumeral(value, 10);
    if value < 0 {
      assert s[1..] == Numeral(magnitude, 10);
    } else {
      assert IsDigit(s[0], 10);
    }
  }
}
