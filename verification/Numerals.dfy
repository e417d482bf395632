/**
 Positional numerals as every printer of the kernel writes them: the digits of a
 natural number, most significant first, and the reader that undoes them.
 */
module Numerals {

  // The bases the kernel prints in.
  predicate IsBase(base: nat) { base == 10 || base == 16 }

  const UINT64_LIMIT := 0x1_0000_0000_0000_0000

  function DigitChar(d: nat): char
    requires d < 16
  {
    "0123456789abcdef"[d]
  }

  predicate IsDigit(c: char, base: nat) {
    || '0' <= c <= '9'
    || (base == 16 && 'a' <= c <= 'f')
  }

  function DigitValue(c: char): nat {
    if '0' <= c <= '9' then c as int - '0' as int
    else if 'a' <= c <= 'f' then c as int - 'a' as int + 10
    else 0
  }

  // The shortest numeral of v.
  function Digits(v: nat, base: nat): (s: string)
    requires IsBase(base)
    ensures |s| >= 1
    ensures forall i :: 0 <= i < |s| ==> IsDigit(s[i], base)
  {
    if v < base then [DigitChar(v)]
    else Digits(v / base, base) + [DigitChar(v % base)]
  }

  function Value(s: string, base: nat): nat {
    if s == "" then 0
    else Value(s[..|s| - 1], base) * base + DigitValue(s[|s| - 1])
  }

  function Repeat(c: char, n: int): (s: string)
    ensures |s| == if n > 0 then n else 0
    ensures forall i :: 0 <= i < |s| ==> s[i] == c
  {
    if n <= 0 then "" else Repeat(c, n - 1) + [c]
  }

  // The numeral of v, zero-padded on the left to at least width digits.
  function Padded(v: nat, base: nat, width: int): string
    requires IsBase(base)
  {
    Repeat('0', width - |Digits(v, base)|) + Digits(v, base)
  }

  // Reading a numeral gives back the number, and the numeral has no leading zero.
  lemma {:induction false} DigitsReadBack(v: nat, base: nat)
    requires IsBase(base)
    ensures Value(Digits(v, base), base) == v
    ensures v > 0 ==> Digits(v, base)[0] != '0'
  {
    if v < base {
      DigitCharValue(v);
      assert Digits(v, base)[..0] == "";
    } else {
      DigitsReadBack(v / base, base);
      DigitCharValue(v % base);
      var s := Digits(v, base);
      assert s[..|s| - 1] == Digits(v / base, base);
      assert Value(s, base) == v / base * base + v % base;
    }
  }

  lemma DigitCharValue(d: nat)
    requires d < 16
    ensures DigitValue(DigitChar(d)) == d
    ensures d > 0 ==> DigitChar(d) != '0'
  {
  }

  function Pow(base: nat, k: nat): (p: nat)
    ensures base > 0 ==> p > 0
  {
    if k == 0 then 1 else base * Pow(base, k - 1)
  }

  // k digits suffice exactly for the numbers below base^k.
  lemma {:induction false} DigitCount(v: nat, base: nat, k: nat)
    requires IsBase(base) && k >= 1
    ensures |Digits(v, base)| <= k <==> v < Pow(base, k)
  {
    if k == 1 {
      assert Pow(base, 1) == base * Pow(base, 0);
    } else if v >= base {
      DigitCount(v / base, base, k - 1);
      if base == 10 { assert v / 10 < Pow(10, k - 1) <==> v < 10 * Pow(10, k - 1); }
      else { assert v / 16 < Pow(16, k - 1) <==> v < 16 * Pow(16, k - 1); }
    } else {
      PowAtLeastBase(base, k);
    }
  }

  lemma {:induction false} ValueBound(s: string, base: nat)
    requires IsBase(base) && forall i :: 0 <= i < |s| ==> IsDigit(s[i], base)
    ensures Value(s, base) < Pow(base, |s|)
  {
    if s != "" {
      var t := s[..|s| - 1];
      ValueBound(t, base);
      assert DigitValue(s[|s| - 1]) < base;
      TimesMonotone(base, Value(t, base), Pow(base, |t|));
      assert Value(s, base) == Value(t, base) * base + DigitValue(s[|s| - 1]);
    }
  }

  // No shorter string of digits has the same value.
  lemma {:induction false} DigitsShortest(s: string, base: nat)
    requires IsBase(base) && s != "" && forall i :: 0 <= i < |s| ==> IsDigit(s[i], base)
    ensures |Digits(Value(s, base), base)| <= |s|
  {
    ValueBound(s, base);
    DigitCount(Value(s, base), base, |s|);
  }

  lemma PowAtLeastBase(base: nat, k: nat)
    requires base >= 2 && k >= 1
    ensures Pow(base, k) >= base
  {
    if k > 1 { PowAtLeastBase(base, k - 1); }
  }

  lemma PowersOf64Bits()
    ensures Pow(10, 20) == 100_000_000_000_000_000_000 && Pow(16, 16) == UINT64_LIMIT
    ensures Pow(16, 15) == 0x1000_0000_0000_0000
  {
    PowSum(10, 5, 5);
    PowSum(10, 10, 10);
    PowSum(16, 4, 4);
    PowSum(16, 8, 8);
    assert Pow(10, 5) == 100_000 && Pow(16, 4) == 0x1_0000;
    assert Pow(16, 16) == 16 * Pow(16, 15);
  }

  lemma {:induction false} PowSum(base: nat, j: nat, k: nat)
    ensures Pow(base, j + k) == Pow(base, j) * Pow(base, k)
  {
    if j > 0 {
      PowSum(base, j - 1, k);
      Associates(base, Pow(base, j - 1), Pow(base, k));
    }
  }

  lemma Associates(a: nat, b: nat, c: nat)
    ensures a * (b * c) == a * b * c
  {
  }

  // No 64-bit value needs more than 20 decimal or 16 hexadecimal digits.
  lemma Uint64DigitCount(v: nat, base: nat)
    requires IsBase(base) && v < UINT64_LIMIT
    ensures |Digits(v, base)| <= if base == 10 then 20 else 16
  {
    hide Pow, Digits;
    PowersOf64Bits();
    DigitCount(v, base, if base == 10 then 20 else 16);
  }

  // Leading zeros do not change the value read.
  lemma {:induction false} ZerosReadAsNothing(n: int, s: string, base: nat)
    ensures Value(Repeat('0', n) + s, base) == Value(s, base)
  {
    var t := Repeat('0', n) + s;
    if s == "" {
      ZeroString(n, base);
      assert t == Repeat('0', n);
    } else {
      assert t[..|t| - 1] == Repeat('0', n) + s[..|s| - 1];
      ZerosReadAsNothing(n, s[..|s| - 1], base);
    }
  }

  lemma {:induction false} ZeroString(n: int, base: nat)
    ensures Value(Repeat('0', n), base) == 0
  {
    hide Repeat;
    if n > 0 {
      var s := Repeat('0', n);
      ZeroString(n - 1, base);
      assert s[..n - 1] == Repeat('0', n - 1);
      assert Value(s, base) == 0 * base + DigitValue('0');
    }
  }

  // A padded numeral still reads back, has at least the width, and consists of digits.
  lemma {:induction false} PaddedReadsBack(v: nat, base: nat, width: int)
    requires IsBase(base)
    ensures Value(Padded(v, base, width), base) == v
    ensures |Padded(v, base, width)| == if width > |Digits(v, base)| then width else |Digits(v, base)|
    ensures forall i :: 0 <= i < |Padded(v, base, width)| ==> IsDigit(Padded(v, base, width)[i], base)
  {
    DigitsReadBack(v, base);
    ZerosReadAsNothing(width - |Digits(v, base)|, Digits(v, base), base);
  }

  // A padded numeral grows at its low end.
  lemma PaddedStep(v: nat, base: nat, width: int)
    requires IsBase(base) && (width >= 2 || v >= base)
    ensures Padded(v, base, width) == Padded(v / base, base, width - 1) + [DigitChar(v % base)]
  {
    hide DigitChar;
    if v < base {
      SmallDivides(v, base);
      assert Repeat('0', width - 1) == Repeat('0', width - 2) + "0";
      assert Digits(0, base) == "0" by { ZeroDigit(base); }
    } else {
      assert Digits(v, base) == Digits(v / base, base) + [DigitChar(v % base)];
    }
  }

  lemma SmallDivides(v: nat, base: nat)
    requires v < base
    ensures v / base == 0 && v % base == v
  {
  }

  lemma ZeroDigit(base: nat)
    requires IsBase(base)
    ensures Digits(0, base) == "0"
  {
  }

  lemma PaddedDigit(v: nat, base: nat)
    requires IsBase(base) && v < base
    ensures Padded(v, base, 1) == [DigitChar(v)]
  {
    assert Repeat('0', 0) == "";
  }

  // ---------------------------------------------------------------------------
  // Division facts
  // ---------------------------------------------------------------------------

  lemma Distributes(d: nat, x: nat, y: nat)
    ensures d * (x + y) == d * x + d * y
  {
  }

  lemma TimesMonotone(d: nat, a: nat, b: nat)
    requires a < b
    ensures d * a + d <= d * b
  {
    var c := b - a - 1;
    Distributes(d, a, 1 + c);
    Distributes(d, 1, c);
    assert b == a + (1 + c);
  }

  lemma QuotientUnique(p: nat, d: nat, q: nat, r: nat)
    requires d > 0 && p == d * q + r && r < d
    ensures p / d == q && p % d == r
  {
    var q' := p / d;
    assert p == d * q' + p % d;
    if q' < q {
      TimesMonotone(d, q', q);
      assert false;
    } else if q < q' {
      TimesMonotone(d, q, q');
      assert false;
    }
  }

  lemma NestedQuotients(m: nat, k: nat, a: nat, b: nat, r: nat)
    requires b < k && r < m
    ensures m * (k * a + b) + r == (k * m) * a + (m * b + r)
    ensures m * b + r < k * m
  {
    Distributes(m, k * a, b);
    Commutes(m, k, a);
    TimesMonotone(m, b, k);
  }

  lemma QuotientOfParts(p: nat, m: nat, k: nat, q: nat, r: nat, a: nat, b: nat)
    requires p == m * q + r && r < m && q == k * a + b && b < k
    ensures k * m > 0 && p / (k * m) == a
  {
    NestedQuotients(m, k, a, b, r);
    QuotientUnique(p, k * m, a, m * b + r);
  }

  // Dividing in two steps.
  lemma DivTimes(p: nat, m: nat, k: nat)
    requires m > 0 && k > 0
    ensures k * m > 0 && p / (k * m) == p / m / k
  {
    var q := p / m;
    QuotientOfParts(p, m, k, q, p % m, q / k, q % k);
  }

  lemma Commutes(m: nat, k: nat, a: nat)
    ensures m * (k * a) == (k * m) * a
    ensures k > 0 && m > 0 ==> k * m > 0
  {
  }
}
