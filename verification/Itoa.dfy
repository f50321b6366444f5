/** getdigits and itoa (libs/libc/stdlib/itoa.c). */
module Itoa {
  import opened Words

  const DIGITS: string := "0123456789ABCDEFGHIJKLMNOPQRSTUVWXYZ"

  function DigitChar(d: nat): char
    requires d < 36
  {
    DIGITS[d]
  }

  /** The value of a digit character; -1 for any other character. */
  function DigitValue(c: char): int {
    if '0' <= c <= '9' then c as int - '0' as int
    else if 'A' <= c <= 'Z' then c as int - 'A' as int + 10
    else -1
  }

  lemma DigitRoundTrip(d: nat)
    requires d < 36
    ensures DigitValue(DigitChar(d)) == d
  {
    if d < 10 {
      assert DIGITS[d] == '0' + d as char;
    } else {
      assert DIGITS[d] == 'A' + (d - 10) as char;
    }
  }

  /** Division by the base, as the loops do it. */
  function Quot(num: nat, base: nat): nat
    requires base >= 2
  {
    num / base
  }

  function Rem(num: nat, base: nat): (r: nat)
    requires base >= 2
    ensures r < base
  {
    num % base
  }

  lemma QuotRem(num: nat, base: nat)
    requires base >= 2
    ensures num == base * Quot(num, base) + Rem(num, base)
    ensures num < base <==> Quot(num, base) == 0
    ensures num < base ==> Rem(num, base) == num
    ensures num > 0 ==> Quot(num, base) < num
  {
    var q := num / base;
    assert num == base * q + num % base;
    if q > 0 {
      Scale(2, base, q);
      Scale(1, q, base);
    }
  }

  /** The number of digits of a number in a base. */
  function DigitCount(num: nat, base: nat): (n: nat)
    requires base >= 2
    ensures n >= 1
    decreases num
  {
    if num < base then 1 else QuotRem(num, base); 1 + DigitCount(Quot(num, base), base)
  }

  /** The number a digit string stands for: the inverse of itoa, written independently of it. */
  function Value(s: string, base: nat): int {
    if s == [] then 0 else Value(s[..|s| - 1], base) * base + DigitValue(s[|s| - 1])
  }

  function Pow(base: nat, n: nat): nat {
    if n == 0 then 1 else base * Pow(base, n - 1)
  }

  /** A number lies between the smallest number with as many digits and the next power. */
  lemma {:induction false} CountBounds(num: nat, base: nat)
    requires base >= 2
    ensures num < Pow(base, DigitCount(num, base))
    ensures DigitCount(num, base) > 1 ==> Pow(base, DigitCount(num, base) - 1) <= num
    decreases num
  {
    hide Quot, Rem;
    QuotRem(num, base);
    if num < base {
      assert Pow(base, 1) == base * Pow(base, 0) == base;
    } else {
      var q := Quot(num, base);
      CountBounds(q, base);
      BoundsStep(num, base, q, Rem(num, base), DigitCount(q, base));
    }
  }

  lemma BoundsStep(num: nat, base: nat, q: nat, r: nat, n: nat)
    requires num == base * q + r && r < base && 0 < q < Pow(base, n) && 1 <= n
    requires n > 1 ==> Pow(base, n - 1) <= q
    ensures Pow(base, n) <= num < Pow(base, n + 1)
  {
    assert base * (q + 1) == base * q + base;
    Scale(q + 1, Pow(base, n), base);
    Scale(Pow(base, n - 1), q, base);
  }

  /** The last n digits of a number. */
  function Digits(num: nat, base: nat, n: nat): (s: string)
    requires 2 <= base <= 36
    ensures |s| == n
  {
    if n == 0 then "" else Digits(Quot(num, base), base, n - 1) + [DigitChar(Rem(num, base))]
  }

  lemma NoDigits(base: nat)
    ensures Value([], base) == 0
  {}

  lemma ValueAppend(s: string, c: char, base: nat)
    ensures Value(s + [c], base) == base * Value(s, base) + DigitValue(c)
  {
    assert (s + [c])[..|s|] == s;
  }

  lemma QuotBelow(num: nat, base: nat, p: nat)
    requires base >= 2 && num < base * p
    ensures Quot(num, base) < p
  {
    hide Quot, Rem;
    QuotRem(num, base);
    if Quot(num, base) >= p {
      Scale(p, Quot(num, base), base);
      assert false;
    }
  }

  /** Reading the digits back gives the number. */
  lemma {:induction false} DigitsRoundTrip(num: nat, base: nat, n: nat)
    requires 2 <= base <= 36 && num < Pow(base, n)
    ensures Value(Digits(num, base, n), base) == num
  {
    hide Quot, Rem, DigitValue, DigitChar, Value;
    if n == 0 {
      assert Digits(num, base, 0) == [];
      NoDigits(base);
    } else {
      QuotRem(num, base);
      var q := Quot(num, base);
      QuotBelow(num, base, Pow(base, n - 1));
      DigitsRoundTrip(q, base, n - 1);
      DigitRoundTrip(Rem(num, base));
      ValueAppend(Digits(q, base, n - 1), DigitChar(Rem(num, base)), base);
    }
  }

  /** Every character is a digit of the base. */
  lemma {:induction false} DigitsInBase(num: nat, base: nat, n: nat, i: nat)
    requires 2 <= base <= 36 && i < n
    ensures 0 <= DigitValue(Digits(num, base, n)[i]) < base
    decreases n
  {
    hide Quot, Rem, DigitValue, DigitChar;
    if i == n - 1 {
      DigitRoundTrip(Rem(num, base));
    } else {
      DigitsInBase(Quot(num, base), base, n - 1, i);
    }
  }

  /** No leading zero, except for the number 0. */
  lemma {:induction false} NoLeadingZero(num: nat, base: nat)
    requires 2 <= base <= 36 && num > 0
    ensures Digits(num, base, DigitCount(num, base))[0] != '0'
    decreases num
  {
    hide Quot, Rem, DigitChar;
    QuotRem(num, base);
    if num < base {
      DigitRoundTrip(num);
      assert Digits(num, base, 1) == [DigitChar(num)];
    } else {
      NoLeadingZero(Quot(num, base), base);
    }
  }

  lemma {:induction false} PowGrows(base: nat, n: nat, m: nat)
    requires 10 <= base && n <= m
    ensures Pow(10, n) <= Pow(base, m) && Pow(base, m) >= 1
  {
    if m > 0 {
      var k := if n == 0 then 0 else n - 1;
      PowGrows(base, k, m - 1);
      Scale(Pow(10, k), Pow(base, m - 1), base);
      Scale(10, base, Pow(10, k));
      assert base * Pow(10, k) >= 10 * Pow(10, k);
    }
  }

  lemma PowersOfTen()
    ensures Pow(10, 20) == 1_0000_0000_0000_0000_0000
  {
    assert Pow(10, 5) == 10_0000;
    assert Pow(10, 10) == 100_0000_0000;
    assert Pow(10, 15) == 1000_0000_0000_0000;
  }

  /** A 64-bit number has at most 20 digits in base 10 or more, so with its terminator it fits the
      21-byte buffer of debug_log. */
  lemma AtMostTwentyDigits(num: nat, base: nat)
    requires 10 <= base && num < 0x1_0000_0000_0000_0000
    ensures DigitCount(num, base) <= 20
  {
    hide DigitCount, Pow;
    var n := DigitCount(num, base);
    CountBounds(num, base);
    PowersOfTen();
    if n > 20 {
      PowGrows(base, 20, n - 1);
      assert false;
    }
  }

  /** getdigits */
  method GetDigits(num: nat, base: nat) returns (count: nat)
    requires base >= 2
    ensures count == DigitCount(num, base)
  {
    hide Quot, Rem;
    if num == 0 {
      return 1;
    }
    count := 0;
    var rest: nat := num;
    while rest != 0
      invariant DigitCount(num, base) == count + (if rest == 0 then 0 else DigitCount(rest, base))
      decreases rest
    {
      QuotRem(rest, base);
      rest := Quot(rest, base);
      count := count + 1;
    }
  }

  /** itoa: the digits are written from the end of the buffer. */
  method Write(num: nat, out: array<char>, base: nat) returns (digits: nat)
    requires 2 <= base <= 36 && DigitCount(num, base) < out.Length
    modifies out
    ensures digits == DigitCount(num, base)
    ensures out[digits] == '\0'
    ensures Value(out[..digits], base) == num
    ensures num > 0 ==> out[0] != '0'
    ensures forall i :: 0 <= i < digits ==> 0 <= DigitValue(out[i]) < base
    ensures out[digits + 1..] == old(out[digits + 1..])
  {
    hide Quot, Rem, DigitValue, DigitChar, DigitCount, Pow, Value;
    digits := GetDigits(num, base);
    var count: nat := digits;
    var rest: nat := num;
    while count != 0
      invariant 0 <= count <= digits
      invariant Digits(num, base, digits) == Digits(rest, base, count) + out[count..digits]
      invariant out[digits..] == old(out[digits..])
    {
      out[count - 1] := DigitChar(Rem(rest, base));
      assert out[count - 1..digits] == [DigitChar(Rem(rest, base))] + out[count..digits];
      rest := Quot(rest, base);
      count := count - 1;
    }
    assert out[..digits] == Digits(num, base, digits);
    out[digits] := '\0';
    assert out[..digits] == Digits(num, base, digits);
    CountBounds(num, base);
    DigitsRoundTrip(num, base, digits);
    if num > 0 {
      NoLeadingZero(num, base);
      assert out[0] == out[..digits][0];
    }
    forall i | 0 <= i < digits ensures 0 <= DigitValue(out[i]) < base {
      DigitsInBase(num, base, digits, i);
      assert out[i] == out[..digits][i];
    }
  }
}
