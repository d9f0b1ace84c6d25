/**
 Decimal amounts (`_formatUnits` and `_parseUnits` in packages/xend/example/lib/main.dart):
 printing base units with a decimal point and reading them back, exactly.
 */
module Units {
  import opened Numerals
  import opened Wrappers

  // ---- digits as text ----

  predicate IsDigit(c: char) {
    '0' <= c <= '9'
  }

  /** `RegExp(r'^\d+$')` on a non-empty string. */
  predicate AllDigits(s: string) {
    forall i :: 0 <= i < |s| ==> IsDigit(s[i])
  }

  function DigitString(ds: seq<nat>): (s: string)
    requires IsNumeral(10, ds)
    ensures |s| == |ds| && AllDigits(s) && DigitsOf(s) == ds
  {
    seq(|ds|, i requires 0 <= i < |ds| => (48 + ds[i]) as char)
  }

  function DigitsOf(s: string): (ds: seq<nat>)
    requires AllDigits(s)
    ensures |ds| == |s| && IsNumeral(10, ds)
    ensures forall i :: 0 <= i < |s| ==> ds[i] == s[i] as int - 48
  {
    seq(|s|, i requires 0 <= i < |s| => s[i] as int - 48)
  }

  lemma {:induction false} TextOfDigits(s: string)
    requires AllDigits(s)
    ensures DigitString(DigitsOf(s)) == s
  {
  }

  function Decimal(n: nat): string {
    if n == 0 then "0" else DigitString(Digits(10, n))
  }

  /** `BigInt.toString` */
  function ToString(n: int): string {
    if n < 0 then "-" + Decimal(-n) else Decimal(n)
  }

  /** `BigInt.parse` of a run of digits. */
  function Number(s: string): nat
    requires AllDigits(s)
  {
    Value(10, DigitsOf(s))
  }

  lemma {:induction false} DecimalNumber(n: nat)
    ensures Decimal(n) != "" && AllDigits(Decimal(n)) && Number(Decimal(n)) == n
  {
    ValueOfDigits(10, n);
    if n == 0 {
      assert DigitsOf("0") == Zeros(1);
      ValueOfZeros(10, 1);
    }
  }

  function Scaled(n: nat, places: nat): nat {
    n * Pow(10, places)
  }

  // ---- library string operations ----

  function ZeroString(n: nat): (s: string)
    ensures |s| == n && forall i :: 0 <= i < n ==> s[i] == '0'
  {
    seq(n, i => '0')
  }

  /** `padLeft(width, '0')` */
  function PadLeft(s: string, width: nat): (r: string)
    ensures |r| == if |s| < width then width else |s|
  {
    if |s| < width then ZeroString(width - |s|) + s else s
  }

  /** `padRight(width, '0')` */
  function PadRight(s: string, width: nat): (r: string)
    ensures |r| == if |s| < width then width else |s|
  {
    if |s| < width then s + ZeroString(width - |s|) else s
  }

  /** `replaceAll(RegExp(r'0+$'), '')` */
  function StripZeros(s: string): (r: string)
    ensures r <= s && s == r + ZeroString(|s| - |r|)
    ensures r != "" ==> r[|r| - 1] != '0'
  {
    if s != "" && s[|s| - 1] == '0' then StripZeros(s[..|s| - 1]) else s
  }

  /** Unicode White_Space and the byte-order mark, as `trim` removes them. */
  predicate IsSpace(c: char) {
    var code := c as int;
    || 0x09 <= code <= 0x0D || code == 0x20 || code == 0x85 || code == 0xA0 || code == 0x1680
    || 0x2000 <= code <= 0x200A || code == 0x2028 || code == 0x2029 || code == 0x202F
    || code == 0x205F || code == 0x3000 || code == 0xFEFF
  }

  function Trim(s: string): (t: string)
    ensures t != "" ==> !IsSpace(t[0]) && !IsSpace(t[|t| - 1])
    ensures s != "" && !IsSpace(s[0]) && !IsSpace(s[|s| - 1]) ==> t == s
    decreases |s|
  {
    if s == "" then ""
    else if IsSpace(s[0]) then Trim(s[1..])
    else if IsSpace(s[|s| - 1]) then Trim(s[..|s| - 1])
    else s
  }

  predicate AllSpace(s: string) {
    forall i :: 0 <= i < |s| ==> IsSpace(s[i])
  }

  /** `text` with spaces before it and after it. */
  predicate Surrounded(s: string, before: string, text: string, after: string) {
    s == before + text + after && AllSpace(before) && AllSpace(after)
  }

  predicate SpaceAtEnd(t: string) {
    t != "" && (IsSpace(t[0]) || IsSpace(t[|t| - 1]))
  }

  lemma {:induction false} SurroundMore(s: string, before: string, text: string, after: string)
    ensures s != "" && IsSpace(s[0]) && Surrounded(s[1..], before, text, after) ==>
      Surrounded(s, [s[0]] + before, text, after)
    ensures s != "" && IsSpace(s[|s| - 1]) && Surrounded(s[..|s| - 1], before, text, after) ==>
      Surrounded(s, before, text, after + [s[|s| - 1]])
  {
    hide IsSpace;
    if s != "" && Surrounded(s[1..], before, text, after) {
      assert s == [s[0]] + before + text + after;
    }
    if s != "" && Surrounded(s[..|s| - 1], before, text, after) {
      assert s == before + text + (after + [s[|s| - 1]]);
    }
  }

  lemma {:induction false} TrimRemovesSpaces(s: string) returns (before: string, after: string)
    ensures Surrounded(s, before, Trim(s), after)
    decreases |s|
  {
    if s != "" && IsSpace(s[0]) {
      hide IsSpace, Surrounded;
      before, after := TrimRemovesSpaces(s[1..]);
      SurroundMore(s, before, Trim(s), after);
      before := [s[0]] + before;
    } else if s != "" && IsSpace(s[|s| - 1]) {
      hide IsSpace, Surrounded;
      before, after := TrimRemovesSpaces(s[..|s| - 1]);
      SurroundMore(s, before, Trim(s), after);
      after := after + [s[|s| - 1]];
    } else {
      before, after := "", "";
    }
  }

  lemma {:induction false} TrimOfSurrounded(s: string, before: string, text: string, after: string)
    requires Surrounded(s, before, text, after) && !SpaceAtEnd(text)
    ensures Trim(s) == text
    decreases |s|
  {
    hide IsSpace;
    if before != "" {
      assert s[0] == before[0] && s[1..] == before[1..] + text + after;
      TrimOfSurrounded(s[1..], before[1..], text, after);
    } else if after != "" {
      if text != "" {
        assert s[0] == text[0];
        assert s[|s| - 1] == after[|after| - 1];
        assert s[..|s| - 1] == before + text + after[..|after| - 1];
        TrimOfSurrounded(s[..|s| - 1], before, text, after[..|after| - 1]);
      } else {
        assert s[0] == after[0] && s[1..] == before + text + after[1..];
        TrimOfSurrounded(s[1..], before, text, after[1..]);
      }
    } else {
      assert s == text;
    }
  }

  /** Trimming removes exactly the spaces at the two ends. */
  lemma TrimExact(s: string, text: string)
    ensures Trim(s) == text <==>
      !SpaceAtEnd(text) && exists before, after :: Surrounded(s, before, text, after)
  {
    var a, b := TrimRemovesSpaces(s);
    if !SpaceAtEnd(text) {
      forall before, after | Surrounded(s, before, text, after) ensures Trim(s) == text {
        TrimOfSurrounded(s, before, text, after);
      }
    }
  }

  lemma TypedSpaces()
    ensures AllSpace(" \t\n\r") && !SpaceAtEnd("0") && !SpaceAtEnd("9") && !SpaceAtEnd(".") && !SpaceAtEnd("-")
  {
  }

  /** `split('.')`, keeping empty pieces. */
  function SplitDots(s: string): (parts: seq<string>)
    ensures |parts| >= 1
  {
    if s == "" then [""]
    else
      var rest := SplitDots(s[1..]);
      if s[0] == '.' then [""] + rest else [[s[0]] + rest[0]] + rest[1..]
  }

  // ---- the two functions ----

  function FormatUnits(amount: int, decimals: nat): string {
    if decimals == 0 then ToString(amount)
    else Pointed(PadLeft(ToString(amount), decimals + 1), decimals)
  }

  function Pointed(padded: string, decimals: nat): string
    requires |padded| > decimals
  {
    var whole := padded[..|padded| - decimals];
    var frac := StripZeros(padded[|padded| - decimals..]);
    if frac == "" then whole else whole + "." + frac
  }

  function ParseUnits(input: string, decimals: nat): Option<nat> {
    var trimmed := Trim(input);
    if trimmed == "" then None
    else
      var parts := SplitDots(trimmed);
      if |parts| > 2 then None
      else
        var whole := if parts[0] == "" then "0" else parts[0];
        var frac := if |parts| == 2 then parts[1] else "";
        if !AllDigits(whole) || !AllDigits(frac) then None
        else if |frac| > decimals then None
        else
          var padded := PadRight(frac, decimals);
          Some(Scaled(Number(whole), decimals) + if padded == "" then 0 else Number(padded))
  }

  // ---- what parsing accepts ----

  /** `text` is `whole`, or `whole.frac` where either side may be empty. */
  ghost predicate Reads(text: string, whole: string, frac: string) {
    && AllDigits(whole) && AllDigits(frac)
    && (text == whole + "." + frac || (text == whole && whole != "" && frac == ""))
  }

  function Worth(whole: string, frac: string, decimals: nat): nat
    requires AllDigits(whole) && AllDigits(frac) && |frac| <= decimals
  {
    Scaled(Number(whole), decimals) + Scaled(Number(frac), decimals - |frac|)
  }

  lemma {:induction false} SplitJoins(s: string)
    ensures |SplitDots(s)| == 1 ==> s == SplitDots(s)[0]
    ensures |SplitDots(s)| == 2 ==> s == SplitDots(s)[0] + "." + SplitDots(s)[1]
  {
    if s != "" {
      SplitJoins(s[1..]);
    }
  }

  lemma {:induction false} SplitDigits(whole: string, rest: string)
    requires AllDigits(whole)
    ensures SplitDots(whole) == [whole]
    ensures SplitDots(whole + "." + rest) == [whole] + SplitDots(rest)
  {
    if whole == "" {
      assert ("" + "." + rest)[1..] == rest;
    } else {
      SplitDigits(whole[1..], rest);
      assert (whole + "." + rest)[1..] == whole[1..] + "." + rest;
      assert [whole[0]] + whole[1..] == whole;
    }
  }

  lemma {:induction false} SplitReads(text: string, whole: string, frac: string)
    requires Reads(text, whole, frac)
    ensures text != ""
    ensures SplitDots(text) == [whole, frac] || (SplitDots(text) == [whole] && frac == "")
  {
    SplitDigits(whole, frac);
    SplitDigits(frac, "");
  }

  lemma {:induction false} NumberOfParts(whole: string, frac: string, decimals: nat)
    requires AllDigits(whole) && AllDigits(frac) && |frac| <= decimals
    ensures
      var padded := PadRight(frac, decimals);
      && AllDigits(padded)
      && Worth(whole, frac, decimals) ==
        Scaled(Number(if whole == "" then "0" else whole), decimals) + if padded == "" then 0 else Number(padded)
  {
    NumberOfEmptyOrZero();
    NumberPadRight(frac, decimals);
  }

  lemma {:induction false} ParseReads(input: string, whole: string, frac: string, decimals: nat)
    requires Reads(Trim(input), whole, frac)
    ensures ParseUnits(input, decimals) == if |frac| <= decimals then Some(Worth(whole, frac, decimals)) else None
  {
    hide Value, Pow, Number, IsSpace, Trim, IsDigit, SplitDots, Reads, PadRight, Worth;
    SplitReads(Trim(input), whole, frac);
    ReadsDigits(Trim(input), whole, frac);
    if |frac| <= decimals {
      NumberOfParts(whole, frac, decimals);
    }
  }

  lemma {:induction false} ReadsDigits(text: string, whole: string, frac: string)
    requires Reads(text, whole, frac)
    ensures AllDigits(whole) && AllDigits(frac) && AllDigits("0")
  {
  }

  lemma {:induction false} NumberOfEmptyOrZero()
    ensures Number("") == 0 && Number("0") == 0
  {
    assert DigitsOf("0") == Zeros(1) && DigitsOf("") == Zeros(0);
    ValueOfZeros(10, 1);
    ValueOfZeros(10, 0);
  }

  lemma {:induction false} NumberConcat(a: string, b: string)
    requires AllDigits(a) && AllDigits(b)
    ensures Number(a + b) == Number(a) * Pow(10, |b|) + Number(b)
  {
    assert DigitsOf(a + b) == DigitsOf(a) + DigitsOf(b);
    ValueConcat(10, DigitsOf(a), DigitsOf(b));
  }

  lemma {:induction false} NumberPadRight(s: string, width: nat)
    requires AllDigits(s) && |s| <= width
    ensures AllDigits(PadRight(s, width))
    ensures Number(PadRight(s, width)) == Number(s) * Pow(10, width - |s|)
  {
    var zeros := ZeroString(width - |s|);
    assert PadRight(s, width) == s + zeros;
    NumberConcat(s, zeros);
    assert DigitsOf(zeros) == Zeros(width - |s|);
    ValueOfZeros(10, width - |s|);
  }

  lemma {:induction false} ParsesTrimmed(input: string, decimals: nat, n: nat)
    ensures ParseUnits(input, decimals) == Some(n) <==>
      exists whole, frac :: Reads(Trim(input), whole, frac) && |frac| <= decimals && n == Worth(whole, frac, decimals)
  {
    var t := Trim(input);
    if ParseUnits(input, decimals) == Some(n) {
      var parts := SplitDots(t);
      SplitJoins(t);
      var whole, frac := parts[0], if |parts| == 2 then parts[1] else "";
      assert Reads(t, whole, frac);
      ParseReads(input, whole, frac, decimals);
    }
    forall whole, frac | Reads(t, whole, frac) && |frac| <= decimals && n == Worth(whole, frac, decimals)
      ensures ParseUnits(input, decimals) == Some(n)
    {
      ParseReads(input, whole, frac, decimals);
    }
  }

  /** Spaces, then `whole` or `whole.frac`, then spaces. */
  ghost predicate Types(input: string, whole: string, frac: string) {
    exists before, text, after :: Surrounded(input, before, text, after) && Reads(text, whole, frac)
  }

  lemma {:induction false} ReadsHasNoSpace(text: string, whole: string, frac: string)
    requires Reads(text, whole, frac)
    ensures !SpaceAtEnd(text)
  {
    hide IsSpace;
    if text != "" {
      PlainIsNoSpace(text[0]);
      PlainIsNoSpace(text[|text| - 1]);
    }
  }

  lemma {:induction false} TypesIffReads(input: string, whole: string, frac: string)
    ensures Types(input, whole, frac) <==> Reads(Trim(input), whole, frac)
  {
    hide Reads, IsSpace;
    var a, b := TrimRemovesSpaces(input);
    forall before, text, after | Surrounded(input, before, text, after) && Reads(text, whole, frac)
      ensures Reads(Trim(input), whole, frac)
    {
      ReadsHasNoSpace(text, whole, frac);
      TrimOfSurrounded(input, before, text, after);
    }
  }

  /** Parsing succeeds exactly on these forms, with exactly this value. */
  lemma {:induction false} ParsesExactly(input: string, decimals: nat, n: nat)
    ensures ParseUnits(input, decimals) == Some(n) <==>
      exists whole, frac :: Types(input, whole, frac) && AllDigits(whole) && AllDigits(frac) &&
        |frac| <= decimals && n == Worth(whole, frac, decimals)
  {
    hide ParseUnits, Worth, Types, Surrounded;
    ParsesTrimmed(input, decimals, n);
    forall whole, frac ensures Types(input, whole, frac) <==> Reads(Trim(input), whole, frac) {
      TypesIffReads(input, whole, frac);
    }
  }

  // ---- printing ----

  /** The digits of `n`, at least `decimals + 1` of them. */
  function Spread(n: nat, decimals: nat): (ds: seq<nat>)
    ensures IsNumeral(10, ds) && |ds| > decimals
  {
    if n < Pow(10, decimals + 1) then Fixed(10, decimals + 1, n)
    else
      ManyDigits(n, decimals + 1);
      Digits(10, n)
  }

  lemma {:induction false} ManyDigits(n: nat, width: nat)
    requires n >= Pow(10, width)
    ensures |Digits(10, n)| > width
  {
    var s := Digits(10, n);
    ValueOfDigits(10, n);
    ValueBelowPow(10, s);
    if |s| <= width { PowMono(10, |s|, width); }
  }

  lemma {:induction false} PadDigits(ds: seq<nat>, width: nat)
    requires IsNumeral(10, ds)
    ensures PadLeft(DigitString(ds), width) == DigitString(if |ds| < width then Zeros(width - |ds|) + ds else ds)
  {
  }

  lemma {:induction false} PaddedIsSpread(n: nat, decimals: nat)
    ensures PadLeft(Decimal(n), decimals + 1) == DigitString(Spread(n, decimals))
  {
    hide Digits, Pow, PadLeft, DigitString, Zeros;
    PowPositive(10, decimals + 1);
    ZeroText(decimals + 1);
    PadDigits(Digits(10, n), decimals + 1);
    if n < Pow(10, decimals + 1) {
      DigitsWidth(10, decimals + 1, n);
      assert Zeros(0) + Digits(10, n) == Digits(10, n);
      assert Zeros(decimals + 1) + [] == Zeros(decimals + 1);
    } else {
      ManyDigits(n, decimals + 1);
    }
  }

  lemma {:induction false} ZeroText(width: nat)
    requires width >= 1
    ensures PadLeft("0", width) == DigitString(Zeros(width))
  {
  }

  lemma {:induction false} SpreadValue(n: nat, decimals: nat)
    ensures Value(10, Spread(n, decimals)) == n
  {
    if n < Pow(10, decimals + 1) {
      ValueOfFixed(10, decimals + 1, n);
    } else {
      ValueOfDigits(10, n);
    }
  }

  /** A digit string is the spread of its value when it has no zero to spare in front. */
  lemma {:induction false} SpreadOfValue(ds: seq<nat>, decimals: nat)
    requires IsNumeral(10, ds) && |ds| > decimals && (|ds| == decimals + 1 || ds[0] != 0)
    ensures Spread(Value(10, ds), decimals) == ds
  {
    hide Value, Digits, Pow;
    if |ds| == decimals + 1 {
      FixedOfValue(10, ds);
    } else {
      DigitsOfValue(10, ds);
      ValueAtLeastPow(10, ds);
      PowMono(10, decimals + 1, |ds| - 1);
    }
  }

  /** No redundant zero before or after the point, and at most `decimals` digits after it. */
  ghost predicate Canonical(text: string, decimals: nat) {
    exists whole, frac :: CanonicalParts(text, whole, frac, decimals)
  }

  ghost predicate CanonicalParts(text: string, whole: string, frac: string, decimals: nat) {
    && AllDigits(whole) && AllDigits(frac) && |frac| <= decimals
    && whole != "" && (whole[0] == '0' ==> whole == "0")
    && (frac != "" ==> frac[|frac| - 1] != '0')
    && text == if frac == "" then whole else whole + "." + frac
  }

  lemma {:induction false} FormatPoints(n: nat, decimals: nat)
    ensures FormatUnits(n, decimals) == Pointed(DigitString(Spread(n, decimals)), decimals)
  {
    PaddedIsSpread(n, decimals);
    DecimalNumber(n);
    hide Decimal, Spread;
    var padded := DigitString(Spread(n, decimals));
    if decimals == 0 {
      assert padded[..|padded|] == padded && padded[|padded|..] == "";
    }
  }

  lemma {:induction false} PointedJoins(whole: string, rest: string)
    requires whole != ""
    ensures
      var frac := StripZeros(rest);
      Pointed(whole + rest, |rest|) == if frac == "" then whole else whole + "." + frac
  {
    var padded := whole + rest;
    assert padded[..|padded| - |rest|] == whole && padded[|padded| - |rest|..] == rest;
  }

  /** The whole and fractional digits `FormatUnits` prints. */
  lemma {:induction false} FormatParts(n: nat, decimals: nat) returns (whole: string, frac: string)
    ensures CanonicalParts(FormatUnits(n, decimals), whole, frac, decimals)
    ensures Worth(whole, frac, decimals) == n
  {
    hide FormatUnits, Digits, Pow, Value, Spread, StripZeros, Pointed, PadRight, DigitString, DigitsOf, IsDigit;
    FormatPoints(n, decimals);
    SpreadValue(n, decimals);
    SpreadLeads(n, decimals);
    var padded := DigitString(Spread(n, decimals));
    whole := padded[..|padded| - decimals];
    var rest := padded[|padded| - decimals..];
    frac := StripZeros(rest);
    assert padded == whole + rest;
    PointedJoins(whole, rest);
    NumberConcat(whole, rest);
    RestOfStrip(rest);
    NumberPadRight(frac, decimals);
  }

  lemma {:induction false} RestOfStrip(rest: string)
    ensures PadRight(StripZeros(rest), |rest|) == rest
  {
  }

  lemma {:induction false} SpreadLeads(n: nat, decimals: nat)
    ensures Spread(n, decimals)[0] == 0 ==> |Spread(n, decimals)| == decimals + 1
  {
  }

  lemma {:induction false} CanonicalReads(text: string, whole: string, frac: string, decimals: nat)
    requires CanonicalParts(text, whole, frac, decimals)
    ensures Trim(text) == text && Reads(text, whole, frac)
  {
    hide IsSpace;
    PlainIsNoSpace(text[0]);
    PlainIsNoSpace(text[|text| - 1]);
  }

  /** Formatting then parsing returns every non-negative amount, and rejects every negative one. */
  lemma {:induction false} ParseOfFormat(amount: int, decimals: nat)
    ensures ParseUnits(FormatUnits(amount, decimals), decimals) == if amount >= 0 then Some(amount) else None
  {
    if amount >= 0 {
      var whole, frac := FormatParts(amount, decimals);
      CanonicalReads(FormatUnits(amount, decimals), whole, frac, decimals);
      ParseReads(FormatUnits(amount, decimals), whole, frac, decimals);
    } else {
      NegativeRejected(amount, decimals);
    }
  }

  lemma {:induction false} MinusNotRead(text: string, whole: string, frac: string)
    requires Reads(text, whole, frac)
    ensures '-' !in text
  {
  }

  ghost predicate Signed(text: string) {
    '-' in text && forall i :: 0 <= i < |text| ==> IsDigit(text[i]) || text[i] == '-'
  }

  lemma {:induction false} NegativePadded(amount: int, width: nat)
    requires amount < 0
    ensures Signed(PadLeft(ToString(amount), width)) && Signed(ToString(amount))
  {
    hide Decimal, IsDigit, PadLeft;
    DecimalNumber(-amount);
    var number := ToString(amount);
    assert number[0] == '-';
    PadSigned(number, width);
  }

  lemma {:induction false} PadSigned(number: string, width: nat)
    requires Signed(number)
    ensures Signed(PadLeft(number, width))
  {
    var i :| 0 <= i < |number| && number[i] == '-';
    var padded := PadLeft(number, width);
    assert padded[|padded| - |number| + i] == '-';
  }

  /** A digit, a minus sign or a point. */
  predicate IsPlain(c: char) {
    IsDigit(c) || c == '-' || c == '.'
  }

  lemma {:induction false} PlainIsNoSpace(c: char)
    requires IsPlain(c)
    ensures !IsSpace(c)
  {
  }

  lemma {:induction false} PointedIsPlain(padded: string, decimals: nat)
    requires Signed(padded) && |padded| > decimals
    ensures '-' in Pointed(padded, decimals)
    ensures forall i :: 0 <= i < |Pointed(padded, decimals)| ==> IsPlain(Pointed(padded, decimals)[i])
  {
    hide IsDigit, StripZeros;
    var whole, rest := padded[..|padded| - decimals], padded[|padded| - decimals..];
    var frac := StripZeros(rest);
    assert padded == whole + rest && rest == frac + ZeroString(|rest| - |frac|);
    forall i | 0 <= i < |frac| ensures IsPlain(frac[i]) { assert rest[i] == frac[i] && rest[i] == padded[|whole| + i]; }
    forall i | 0 <= i < |whole| ensures IsPlain(whole[i]) { assert whole[i] == padded[i]; }
  }

  lemma {:induction false} NegativeText(amount: int, decimals: nat)
    requires amount < 0
    ensures '-' in FormatUnits(amount, decimals)
    ensures forall i :: 0 <= i < |FormatUnits(amount, decimals)| ==> IsPlain(FormatUnits(amount, decimals)[i])
  {
    NegativePadded(amount, decimals + 1);
    hide ToString, Pointed, PadLeft, IsDigit;
    if decimals > 0 {
      hide Signed, IsPlain;
      PointedIsPlain(PadLeft(ToString(amount), decimals + 1), decimals);
    }
  }

  lemma {:induction false} NegativeRejected(amount: int, decimals: nat)
    requires amount < 0
    ensures ParseUnits(FormatUnits(amount, decimals), decimals) == None
  {
    var text := FormatUnits(amount, decimals);
    NegativeText(amount, decimals);
    hide FormatUnits, ParseUnits, Worth, IsSpace;
    PlainIsNoSpace(text[0]);
    PlainIsNoSpace(text[|text| - 1]);
    assert Trim(text) == text;
    if ParseUnits(text, decimals).Some? {
      var n := ParseUnits(text, decimals).value;
      ParsesTrimmed(text, decimals, n);
      var whole, frac :| Reads(Trim(text), whole, frac) && |frac| <= decimals && n == Worth(whole, frac, decimals);
      MinusNotRead(text, whole, frac);
      assert false;
    }
  }

  lemma {:induction false} DigitsReach(n: nat, decimals: nat)
    requires n > 0
    ensures |Decimal(n)| > decimals <==> n >= Pow(10, decimals)
  {
    ValueOfDigits(10, n);
    if n >= Pow(10, decimals) { ManyDigits(n, decimals); } else { DigitsWidth(10, decimals, n); }
  }

  lemma {:induction false} WideKeepsSign(digits: string, decimals: nat)
    requires |digits| > decimals
    ensures Pointed("-" + digits, decimals) == "-" + Pointed(digits, decimals)
  {
    hide StripZeros, Pointed;
    var whole, rest := digits[..|digits| - decimals], digits[|digits| - decimals..];
    assert digits == whole + rest;
    SignAside(whole, rest);
    PointedJoins(whole, rest);
    PointedJoins("-" + whole, rest);
    SignAside(whole, "." + StripZeros(rest));
    SignAside(whole, "");
    hide *;
    assert "-" + whole + "." + StripZeros(rest) == "-" + whole + ("." + StripZeros(rest));
    assert whole + "." + StripZeros(rest) == whole + ("." + StripZeros(rest));
  }

  lemma {:induction false} SignAside(a: string, b: string)
    ensures "-" + (a + b) == "-" + a + b
  {
  }

  lemma {:induction false} PointedStarts(padded: string, decimals: nat)
    requires |padded| > decimals
    ensures Pointed(padded, decimals) != "" && Pointed(padded, decimals)[0] == padded[0]
    ensures |padded| == decimals + 1 ==> Pointed(padded, decimals) == padded[..1] || Pointed(padded, decimals)[1] == '.'
  {
    hide StripZeros;
  }

  lemma {:induction false} NarrowLosesSign(digits: string, decimals: nat)
    requires 0 < |digits| <= decimals
    ensures Pointed(PadLeft("-" + digits, decimals + 1), decimals) !=
      "-" + Pointed(PadLeft(digits, decimals + 1), decimals)
  {
    var positive, negative := PadLeft(digits, decimals + 1), PadLeft("-" + digits, decimals + 1);
    assert positive[0] == '0';
    assert |digits| < decimals ==> negative[0] == '0';
    hide Pointed, PadLeft;
    PointedStarts(positive, decimals);
    PointedStarts(negative, decimals);
  }

  /**
   A negative amount is printed as the minus sign and its magnitude exactly when that
   magnitude reaches one whole unit; below, the sign stands where the whole digit belongs or
   after the padding.
   */
  lemma {:induction false} SignKeptExactly(n: int, decimals: nat)
    requires n > 0
    ensures FormatUnits(-n, decimals) == "-" + FormatUnits(n, decimals) <==> n >= Pow(10, decimals)
  {
    DigitsReach(n, decimals);
    DecimalNumber(n);
    hide Decimal, IsDigit, Pointed, Number;
    if decimals > 0 {
      hide Pow;
      if |Decimal(n)| > decimals {
        WideKeepsSign(Decimal(n), decimals);
      } else {
        NarrowLosesSign(Decimal(n), decimals);
      }
    }
  }

  /** The canonical texts are exactly those printed for some amount, and parsing recovers it. */
  lemma {:induction false} FormatOfParse(text: string, decimals: nat)
    ensures Canonical(text, decimals) <==> exists n: nat :: FormatUnits(n, decimals) == text
    ensures Canonical(text, decimals) ==>
      ParseUnits(text, decimals).Some? && FormatUnits(ParseUnits(text, decimals).value, decimals) == text
  {
    if Canonical(text, decimals) {
      var whole, frac :| CanonicalParts(text, whole, frac, decimals);
      CanonicalReads(text, whole, frac, decimals);
      ParseReads(text, whole, frac, decimals);
      PrintsBack(text, whole, frac, decimals);
    }
    forall n: nat | FormatUnits(n, decimals) == text ensures Canonical(text, decimals) {
      var whole, frac := FormatParts(n, decimals);
    }
  }

  lemma {:induction false} PrintsBack(text: string, whole: string, frac: string, decimals: nat)
    requires CanonicalParts(text, whole, frac, decimals)
    ensures FormatUnits(Worth(whole, frac, decimals), decimals) == text
  {
    hide FormatUnits, Digits, Pow, Value, Spread, StripZeros, Pointed, PadRight, DigitString, DigitsOf, IsDigit;
    var n := Worth(whole, frac, decimals);
    var rest := PadRight(frac, decimals);
    NumberPadRight(frac, decimals);
    NumberConcat(whole, rest);
    StripOfPad(frac, decimals);
    PointedJoins(whole, rest);
    SpreadOfValue(DigitsOf(whole + rest), decimals);
    FormatPoints(n, decimals);
    TextOfDigits(whole + rest);
  }

  lemma {:induction false} StripOfPad(frac: string, width: nat)
    requires |frac| <= width && (frac != "" ==> frac[|frac| - 1] != '0')
    ensures StripZeros(PadRight(frac, width)) == frac
    decreases width
  {
    if |frac| < width {
      assert PadRight(frac, width)[..width - 1] == PadRight(frac, width - 1);
      StripOfPad(frac, width - 1);
    }
  }

  /** Whatever form was typed, printing its value gives the canonical form of that value. */
  lemma {:induction false} FormatNormalises(input: string, decimals: nat)
    requires ParseUnits(input, decimals).Some?
    ensures
      var text := FormatUnits(ParseUnits(input, decimals).value, decimals);
      Canonical(text, decimals) && ParseUnits(text, decimals) == ParseUnits(input, decimals)
  {
    var n := ParseUnits(input, decimals).value;
    var whole, frac := FormatParts(n, decimals);
    ParseOfFormat(n, decimals);
  }
}
