/** Decimal printing, and atoi as glibc computes it: strtol in 64 bits, truncated to 32. */
module Decimal {
  import opened Words

  const LONG_MIN := -0x8000_0000_0000_0000
  const LONG_MAX := 0x7fff_ffff_ffff_ffff

  predicate IsDigit(c: char) { '0' <= c <= '9' }

  predicate IsSpace(c: char) { c == ' ' || '\t' <= c <= '\r' }

  function DigitChar(d: int): (c: char)
    requires 0 <= d < 10
    ensures IsDigit(c) && (c - '0') as int == d
  {
    '0' + d as char
  }

  function Digits(n: nat): (s: string)
    ensures s != []
  {
    if n < 10 then [DigitChar(n)] else Digits(n / 10) + [DigitChar(n % 10)]
  }

  function Print(n: int): (s: string)
    ensures s != []
  {
    if n < 0 then ['-'] + Digits(-n) else Digits(n)
  }

  lemma {:induction false} DigitsAreDigits(n: nat)
    ensures forall c | c in Digits(n) :: IsDigit(c)
  {
    if n >= 10 {
      DigitsAreDigits(n / 10);
    }
  }

  lemma PrintHasNo(n: int, c: char)
    requires !IsDigit(c) && c != '-'
    ensures c !in Print(n)
  {
    DigitsAreDigits(if n < 0 then -n else n);
  }

  /** The value of the longest prefix of digits, after acc. */
  function ScanDigits(s: string, acc: nat): nat {
    if s == [] || !IsDigit(s[0]) then acc else ScanDigits(s[1..], 10 * acc + (s[0] - '0') as int)
  }

  function SkipSpaces(s: string): string {
    if s != [] && IsSpace(s[0]) then SkipSpaces(s[1..]) else s
  }

  function Clamp(v: int): int {
    if v > LONG_MAX then LONG_MAX else if v < LONG_MIN then LONG_MIN else v
  }

  function ToInt32(v: int): (r: int)
    ensures INT_MIN <= r <= INT_MAX
    ensures INT_MIN <= v <= INT_MAX ==> r == v
    ensures r % 0x1_0000_0000 == v % 0x1_0000_0000
  {
    (v - INT_MIN) % 0x1_0000_0000 + INT_MIN
  }

  function Atoi(s: string): (r: int)
    ensures INT_MIN <= r <= INT_MAX
  {
    var t := SkipSpaces(s);
    var v: int :=
      if t != [] && t[0] == '-' then 0 - ScanDigits(t[1..], 0)
      else if t != [] && t[0] == '+' then ScanDigits(t[1..], 0)
      else ScanDigits(t, 0);
    ToInt32(Clamp(v))
  }

  lemma {:induction false} ScanAppend(a: string, b: string, acc: nat)
    requires forall c | c in a :: IsDigit(c)
    ensures ScanDigits(a + b, acc) == ScanDigits(b, ScanDigits(a, acc))
  {
    if a == [] {
      assert a + b == b;
    } else {
      assert a[0] in a;
      assert (a + b)[1..] == a[1..] + b;
      ScanAppend(a[1..], b, 10 * acc + (a[0] - '0') as int);
    }
  }

  lemma {:induction false} ScanPrinted(n: nat)
    ensures ScanDigits(Digits(n), 0) == n
  {
    if n >= 10 {
      ScanPrinted(n / 10);
      DigitsAreDigits(n / 10);
      ScanAppend(Digits(n / 10), [DigitChar(n % 10)], 0);
    }
    assert [DigitChar(n % 10)][1..] == [];
  }

  lemma ScanDigitsThen(n: nat, rest: string)
    requires rest == [] || !IsDigit(rest[0])
    ensures ScanDigits(Digits(n) + rest, 0) == n
    ensures IsDigit((Digits(n) + rest)[0])
  {
    DigitsAreDigits(n);
    ScanPrinted(n);
    ScanAppend(Digits(n), rest, 0);
    assert Digits(n)[0] in Digits(n);
  }

  lemma {:induction false} ScanStops(s: string, rest: string, acc: nat)
    requires rest == [] || !IsDigit(rest[0])
    ensures ScanDigits(s + rest, acc) == ScanDigits(s, acc)
  {
    if s == [] {
      assert s + rest == rest;
    } else if IsDigit(s[0]) {
      assert (s + rest)[1..] == s[1..] + rest;
      ScanStops(s[1..], rest, 10 * acc + (s[0] - '0') as int);
    }
  }

  lemma {:induction false} SkipSpacesThen(s: string, rest: string)
    requires rest != [] && !IsSpace(rest[0])
    ensures SkipSpaces(s + rest) == SkipSpaces(s) + rest
  {
    if s == [] {
      assert s + rest == rest;
    } else if IsSpace(s[0]) {
      assert (s + rest)[1..] == s[1..] + rest;
      SkipSpacesThen(s[1..], rest);
    }
  }

  /** atoi does not look past a character that is neither blank, sign nor digit. */
  lemma AtoiStops(s: string, rest: string)
    requires rest != [] && !IsSpace(rest[0]) && !IsDigit(rest[0]) && rest[0] != '-' && rest[0] != '+'
    ensures Atoi(s + rest) == Atoi(s)
  {
    SkipSpacesThen(s, rest);
    var t := SkipSpaces(s);
    ScanStops(t, rest, 0);
    if t != [] {
      assert (t + rest)[1..] == t[1..] + rest;
      ScanStops(t[1..], rest, 0);
    } else {
      assert t + rest == rest;
    }
  }

  predicate Decimals(digits: string) {
    forall i | 0 <= i < |digits| :: '0' <= digits[i] <= '9'
  }

  /** The decimal value of a string of digits, from its last digit. */
  function Numeral(digits: string): nat
    requires Decimals(digits)
  {
    if digits == [] then 0
    else 10 * Numeral(digits[..|digits| - 1]) + (digits[|digits| - 1] - '0') as int
  }

  lemma {:induction false} ScanIsNumeral(digits: string)
    requires Decimals(digits)
    ensures ScanDigits(digits, 0) == Numeral(digits)
  {
    if digits != [] {
      var rest, last := digits[..|digits| - 1], digits[|digits| - 1];
      ScanIsNumeral(rest);
      ScanAppend(rest, [last], 0);
      assert digits == rest + [last] && [last][1..] == [];
    }
  }

  lemma {:induction false} SkipSpacesIn(lead: string, s: string)
    requires forall c | c in lead :: c in " \t\n\U{0B}\U{0C}\r"
    requires s != [] && !IsSpace(s[0])
    ensures SkipSpaces(lead + s) == s
  {
    if lead == [] {
      assert lead + s == s;
    } else {
      assert lead[0] in lead && (lead + s)[1..] == lead[1..] + s;
      SkipSpacesIn(lead[1..], s);
    }
  }

  lemma ScanNumeral(digits: string, rest: string)
    requires Decimals(digits) && digits != [] && (rest == [] || !('0' <= rest[0] <= '9'))
    ensures ScanDigits(digits + rest, 0) == Numeral(digits)
  {
    ScanAppend(digits, rest, 0);
    ScanIsNumeral(digits);
  }

  lemma AtoiSigned(lead: string, s: string, v: int)
    requires forall c | c in lead :: c in " \t\n\U{0B}\U{0C}\r"
    requires s != [] && !IsSpace(s[0])
    requires v == if s[0] == '-' then 0 - ScanDigits(s[1..], 0) else ScanDigits(if s[0] == '+' then s[1..] else s, 0)
    ensures Atoi(lead + s) == ToInt32(Clamp(v))
  {
    SkipSpacesIn(lead, s);
  }

  /**
   atoi skips blanks, takes one sign and reads all digits, truncating to 32 bits what fits 64; beyond that it
   gives -1 or 0.
   */
  lemma AtoiReads(lead: string, sign: string, digits: string, rest: string)
    requires forall c | c in lead :: c in " \t\n\U{0B}\U{0C}\r"
    requires sign in {"", "-", "+"} && Decimals(digits) && digits != []
    requires rest == [] || !('0' <= rest[0] <= '9')
    ensures var v := if sign == "-" then 0 - Numeral(digits) else Numeral(digits);
            var r := Atoi(lead + (sign + (digits + rest)));
            && (-0x8000_0000_0000_0000 <= v < 0x8000_0000_0000_0000 ==>
                  -0x8000_0000 <= r < 0x8000_0000 && r % 0x1_0000_0000 == v % 0x1_0000_0000)
            && (v < -0x8000_0000_0000_0000 ==> r == 0)
            && (v >= 0x8000_0000_0000_0000 ==> r == -1)
  {
    var s := sign + (digits + rest);
    ScanNumeral(digits, rest);
    assert s[0] == if sign == "" then digits[0] else sign[0];
    assert s[|sign|..] == digits + rest;
    AtoiSigned(lead, s, if sign == "-" then 0 - Numeral(digits) else Numeral(digits));
  }

  /** atoi inverts decimal printing, whatever follows the digits. */
  lemma AtoiPrint(n: int, rest: string)
    requires INT_MIN <= n <= INT_MAX
    requires rest == [] || !IsDigit(rest[0])
    ensures Atoi(Print(n) + rest) == n
  {
    var m: nat := if n < 0 then -n else n;
    ScanDigitsThen(m, rest);
    var s := Print(n) + rest;
    if n < 0 {
      assert s[0] == '-' && s[1..] == Digits(m) + rest;
      assert SkipSpaces(s) == s;
    } else {
      assert s == Digits(n) + rest;
      assert SkipSpaces(s) == s;
    }
  }
}
