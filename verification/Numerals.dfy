/**
 Positional numerals in an arbitrary base, most significant digit first. The codecs of
 the wallet (base58, BIP-39 bit groups, decimal amounts, wire integers) are all stated
 against this one reading of a digit string as a number.
 */
module Numerals {

  type byte = x: int | 0 <= x < 256

  ghost predicate IsNumeral(base: nat, s: seq<nat>) {
    forall i :: 0 <= i < |s| ==> s[i] < base
  }

  /** No leading zero digit. */
  predicate IsCanonical(s: seq<nat>) {
    |s| > 0 ==> s[0] != 0
  }

  function Value(base: nat, s: seq<nat>): nat {
    if |s| == 0 then 0 else Value(base, s[..|s| - 1]) * base + s[|s| - 1]
  }

  /** The numeral of `n` without leading zeros; zero has no digits. */
  function Digits(base: nat, n: nat): (s: seq<nat>)
    requires base >= 2
    ensures IsNumeral(base, s) && IsCanonical(s) && (s == [] <==> n == 0)
    decreases n
  {
    if n == 0 then [] else
      DivShrinks(n, base);
      Digits(base, n / base) + [n % base]
  }

  function Zeros(n: nat): (s: seq<nat>)
    ensures |s| == n && forall i :: 0 <= i < n ==> s[i] == 0
  {
    seq(n, i => 0)
  }

  /** The numeral of `n` padded with leading zeros to `width` digits. */
  function Fixed(base: nat, width: nat, n: nat): (s: seq<nat>)
    requires base >= 2 && n < Pow(base, width)
    ensures |s| == width && IsNumeral(base, s)
  {
    DigitsWidth(base, width, n);
    Zeros(width - |Digits(base, n)|) + Digits(base, n)
  }

  function LeadingZeros(s: seq<nat>): (z: nat)
    ensures z <= |s| && IsCanonical(s[z..]) && s[..z] == Zeros(z)
  {
    if |s| > 0 && s[0] == 0 then
      var z := LeadingZeros(s[1..]);
      assert s[1..][z..] == s[1 + z..];
      assert s[..1 + z] == [0] + s[1..][..z];
      1 + z
    else 0
  }

  function Pow(base: nat, n: nat): nat {
    if n == 0 then 1 else Pow(base, n - 1) * base
  }

  /** The digit of weight base^k. */
  function DigitAt(base: nat, n: nat, k: nat): nat
    requires base >= 1
  {
    PowPositive(base, k);
    n / Pow(base, k) % base
  }

  function Reverse<T>(s: seq<T>): (r: seq<T>)
    ensures |r| == |s| && forall i :: 0 <= i < |s| ==> r[i] == s[|s| - 1 - i]
  {
    seq(|s|, i requires 0 <= i < |s| => s[|s| - 1 - i])
  }

  // ---- arithmetic ----

  lemma {:induction false} DivShrinks(n: nat, base: nat)
    requires base >= 2 && n > 0
    ensures n / base < n
  {
    var q := n / base;
    assert n == q * base + n % base;
    MulMono(q, 2, q, base);
  }

  lemma {:induction false} DivMod(n: nat, base: nat)
    requires base >= 1
    ensures n == (n / base) * base + n % base
  {
  }

  lemma {:induction false} DivUnique(q: nat, r: nat, base: nat)
    requires r < base
    ensures (q * base + r) / base == q && (q * base + r) % base == r
  {
    var n := q * base + r;
    var d := n / base;
    assert n == d * base + n % base;
    if d > q {
      MulMono(q + 1, base, d, base);
      assert false;
    } else if d < q {
      MulMono(d + 1, base, q, base);
      assert false;
    }
  }

  lemma {:induction false} MulMono(a: nat, b: nat, c: nat, d: nat)
    requires a <= c && b <= d
    ensures a * b <= c * d
  {
    assert a * b <= a * d;
    assert a * d <= c * d;
  }

  lemma {:induction false} PowPositive(base: nat, n: nat)
    requires base >= 1
    ensures Pow(base, n) >= 1
  {
    if n > 0 { PowPositive(base, n - 1); MulMono(1, 1, Pow(base, n - 1), base); }
  }

  lemma {:induction false} MulAssociates(a: nat, b: nat, c: nat)
    ensures (a * b) * c == a * (b * c)
  {
  }

  lemma {:induction false} PowAdd(base: nat, m: nat, n: nat)
    ensures Pow(base, m + n) == Pow(base, m) * Pow(base, n)
  {
    if n > 0 {
      PowAdd(base, m, n - 1);
      MulAssociates(Pow(base, m), Pow(base, n - 1), base);
    }
  }

  lemma {:induction false} PowMono(base: nat, m: nat, n: nat)
    requires base >= 1 && m <= n
    ensures Pow(base, m) <= Pow(base, n)
  {
    PowAdd(base, m, n - m);
    PowPositive(base, n - m);
    MulMono(Pow(base, m), 1, Pow(base, m), Pow(base, n - m));
  }

  // ---- numerals ----

  lemma {:induction false} DigitsStep(base: nat, q: nat, r: nat)
    requires base >= 2 && r < base && q * base + r > 0
    ensures Digits(base, q * base + r) == Digits(base, q) + [r]
  {
    DivUnique(q, r, base);
  }

  lemma {:induction false} ValueStep(base: nat, s: seq<nat>, d: nat)
    ensures Value(base, s + [d]) == Value(base, s) * base + d
  {
    assert (s + [d])[..|s|] == s;
  }

  lemma {:induction false} ValueOfDigits(base: nat, n: nat)
    requires base >= 2
    ensures Value(base, Digits(base, n)) == n
    decreases n
  {
    if n > 0 {
      var q, r := n / base, n % base;
      DivShrinks(n, base);
      ValueOfDigits(base, q);
      DivMod(n, base);
      ValueStep(base, Digits(base, q), r);
    }
  }

  lemma {:induction false} ValuePositive(base: nat, s: seq<nat>)
    requires base >= 1 && IsCanonical(s) && s != []
    ensures Value(base, s) > 0
  {
    if |s| > 1 {
      ValuePositive(base, s[..|s| - 1]);
      MulMono(1, 1, Value(base, s[..|s| - 1]), base);
    } else {
      assert Value(base, s[..0]) == 0;
    }
  }

  lemma {:induction false} DigitsOfValue(base: nat, s: seq<nat>)
    requires base >= 2 && IsNumeral(base, s) && IsCanonical(s)
    ensures Digits(base, Value(base, s)) == s
  {
    if s != [] {
      var front := s[..|s| - 1];
      ValuePositive(base, s);
      DigitsOfValue(base, front);
      DigitsStep(base, Value(base, front), s[|s| - 1]);
      assert s == front + [s[|s| - 1]];
    }
  }

  lemma {:induction false} ShiftSum(p: nat, q: nat, v: nat, base: nat, d: nat)
    ensures (p * q + v) * base + d == p * (q * base) + (v * base + d)
  {
  }

  lemma {:induction false} ValueConcat(base: nat, a: seq<nat>, b: seq<nat>)
    ensures Value(base, a + b) == Value(base, a) * Pow(base, |b|) + Value(base, b)
  {
    if b == [] {
      assert a + b == a;
    } else {
      var front, last := b[..|b| - 1], b[|b| - 1];
      assert a + b == (a + front) + [last];
      ValueStep(base, a + front, last);
      ValueConcat(base, a, front);
      ShiftSum(Value(base, a), Pow(base, |b| - 1), Value(base, front), base, last);
    }
  }

  lemma {:induction false} ValueOfZeros(base: nat, n: nat)
    ensures Value(base, Zeros(n)) == 0
  {
    if n > 0 {
      assert Zeros(n)[..n - 1] == Zeros(n - 1);
      ValueOfZeros(base, n - 1);
    }
  }

  lemma {:induction false} ValueDropsZeros(base: nat, n: nat, s: seq<nat>)
    ensures Value(base, Zeros(n) + s) == Value(base, s)
  {
    ValueConcat(base, Zeros(n), s);
    ValueOfZeros(base, n);
  }

  lemma {:induction false} ValueBelowPow(base: nat, s: seq<nat>)
    requires IsNumeral(base, s)
    ensures Value(base, s) < Pow(base, |s|)
  {
    if s != [] {
      var front := s[..|s| - 1];
      ValueBelowPow(base, front);
      MulMono(Value(base, front) + 1, base, Pow(base, |front|), base);
      assert (Value(base, front) + 1) * base == Value(base, front) * base + base;
    }
  }

  /** A canonical numeral of k digits is at least base^(k-1). */
  lemma {:induction false} ValueAtLeastPow(base: nat, s: seq<nat>)
    requires base >= 1 && IsCanonical(s) && s != []
    ensures Pow(base, |s| - 1) <= Value(base, s)
  {
    if |s| == 1 {
      assert Value(base, s[..0]) == 0;
    } else {
      ValueAtLeastPow(base, s[..|s| - 1]);
      MulMono(Pow(base, |s| - 2), base, Value(base, s[..|s| - 1]), base);
    }
  }

  lemma {:induction false} DigitsWidth(base: nat, width: nat, n: nat)
    requires base >= 2 && n < Pow(base, width)
    ensures |Digits(base, n)| <= width
  {
    var s := Digits(base, n);
    if |s| > width {
      ValueOfDigits(base, n);
      ValueAtLeastPow(base, s);
      PowMono(base, width, |s| - 1);
    }
  }

  lemma {:induction false} ValueOfFixed(base: nat, width: nat, n: nat)
    requires base >= 2 && n < Pow(base, width)
    ensures Value(base, Fixed(base, width, n)) == n
  {
    DigitsWidth(base, width, n);
    ValueOfDigits(base, n);
    ValueDropsZeros(base, width - |Digits(base, n)|, Digits(base, n));
  }

  /** Numerals of equal width are determined by their value. */
  lemma {:induction false} FixedOfValue(base: nat, s: seq<nat>)
    requires base >= 2 && IsNumeral(base, s)
    ensures Value(base, s) < Pow(base, |s|)
    ensures Fixed(base, |s|, Value(base, s)) == s
  {
    ValueBelowPow(base, s);
    var z := LeadingZeros(s);
    assert s == Zeros(z) + s[z..];
    ValueDropsZeros(base, z, s[z..]);
    assert IsNumeral(base, s[z..]);
    DigitsOfValue(base, s[z..]);
  }

  lemma {:induction false} DivDiv(n: nat, b: nat, p: nat)
    requires b >= 1 && p >= 1
    ensures p * b >= 1 && n / (p * b) == n / b / p
  {
    var q := n / b;
    var d, r := q / p, q % p * b + n % b;
    DivMod(n, b);
    DivMod(q, p);
    MulMono(q % p + 1, b, p, b);
    MulAssociates(d, p, b);
    MulMono(1, 1, p, b);
    assert n == d * (p * b) + r;
    assert r < p * b;
    DivUnique(d, r, p * b);
  }

  lemma {:induction false} DigitShift(base: nat, n: nat, k: nat)
    requires base >= 1
    ensures DigitAt(base, n, 0) == n % base
    ensures k > 0 ==> DigitAt(base, n, k) == DigitAt(base, n / base, k - 1)
  {
    DivUnique(n, 0, 1);
    if k > 0 {
      PowPositive(base, k - 1);
      DivDiv(n, base, Pow(base, k - 1));
    }
  }

  /** Each digit of a numeral, from its value alone. */
  lemma {:induction false} ValueDigit(base: nat, s: seq<nat>, k: nat)
    requires base >= 1 && IsNumeral(base, s) && k < |s|
    ensures s[|s| - 1 - k] == DigitAt(base, Value(base, s), k)
  {
    var front, last := s[..|s| - 1], s[|s| - 1];
    DivUnique(Value(base, front), last, base);
    DigitShift(base, Value(base, s), k);
    if k > 0 { ValueDigit(base, front, k - 1); }
  }

  lemma {:induction false} FixedDigit(base: nat, width: nat, n: nat, k: nat)
    requires base >= 2 && n < Pow(base, width) && k < width
    ensures Fixed(base, width, n)[width - 1 - k] == DigitAt(base, n, k)
  {
    ValueOfFixed(base, width, n);
    ValueDigit(base, Fixed(base, width, n), k);
  }
}
