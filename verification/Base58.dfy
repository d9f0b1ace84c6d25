/**
 Base58 addresses (packages/xend/ios/Classes/Base58.swift): the in-place long division
 that encodes, the multiply-and-carry accumulation that decodes, and the radix
 conversion both are shown to compute.
 */
module Base58 {
  import opened Numerals
  import opened Wrappers

  type int8 = x: int | -128 <= x < 128

  /** The 58 symbols, in their ASCII runs. */
  const ALPHABET := "123456789" + "ABCDEFGH" + "JKLMN" + "PQRSTUVWXYZ" + "abcdefghijk" + "mnopqrstuvwxyz"

  // ---- alphabet and its inverse map ----

  /** The alphabet by arithmetic: `AlphabetSymbols` ties it to the table. */
  function Symbol(i: nat): char
    requires i < 58
  {
    var code :=
      if i < 9 then 49 + i
      else if i < 17 then 56 + i
      else if i < 22 then 57 + i
      else if i < 33 then 58 + i
      else if i < 44 then 64 + i
      else 65 + i;
    code as char
  }

  /** Position of `c` in the alphabet, or -1. */
  function Rank(c: char): (r: int)
    ensures -1 <= r < 58 && (r >= 0 ==> Symbol(r) == c && c as int < 128)
  {
    var code := c as int;
    if 49 <= code < 58 then code - 49
    else if 65 <= code < 73 then code - 56
    else if 74 <= code < 79 then code - 57
    else if 80 <= code < 91 then code - 58
    else if 97 <= code < 108 then code - 64
    else if 109 <= code < 123 then code - 65
    else -1
  }

  lemma RankOfSymbol(i: nat)
    requires i < 58
    ensures Rank(Symbol(i)) == i
  {
  }

  lemma AlphabetSymbols()
    ensures |ALPHABET| == 58 && forall i :: 0 <= i < 58 ==> ALPHABET[i] == Symbol(i)
  {
  }

  /** A character is in the alphabet exactly when it has a rank. */
  lemma RankDecidesMembership(c: char)
    ensures Rank(c) >= 0 <==> c in ALPHABET
  {
    AlphabetSymbols();
    if Rank(c) >= 0 {
      assert ALPHABET[Rank(c)] == c;
    }
  }

  predicate IsAlphanumeric(c: char) {
    '0' <= c <= '9' || 'A' <= c <= 'Z' || 'a' <= c <= 'z'
  }

  /** The ASCII digits and letters in the order of their codes, without 0, O, I and l. */
  lemma AlphabetAscends(i: nat, j: nat, c: char)
    requires i < j < 58
    ensures ALPHABET[i] < ALPHABET[j]
    ensures c in ALPHABET <==> IsAlphanumeric(c) && c !in "0OIl"
  {
    AlphabetSymbols();
    RankDecidesMembership(c);
  }

  method BuildMap() returns (table: array<int8>)
    ensures fresh(table) && table.Length == 128
    ensures forall k :: 0 <= k < 128 ==> table[k] == Rank(k as char)
  {
    table := new int8[128](_ => -1);
    AlphabetSymbols();
    for i := 0 to 58
      invariant forall k :: 0 <= k < 128 ==>
        table[k] == if Rank(k as char) < i then Rank(k as char) else -1
    {
      table[ALPHABET[i] as int] := i;
    }
  }

  // ---- the conversion the loops compute ----

  /** Same leading zeros, same value, other radix. */
  function Convert(from: nat, to: nat, s: seq<nat>): (r: seq<nat>)
    requires to >= 2
    ensures IsNumeral(to, r)
  {
    Zeros(LeadingZeros(s)) + Digits(to, Value(from, s))
  }

  function Symbols(ds: seq<nat>): (s: string)
    requires IsNumeral(58, ds)
    ensures |s| == |ds| && forall i :: 0 <= i < |ds| ==> s[i] == Symbol(ds[i])
  {
    seq(|ds|, i requires 0 <= i < |ds| => Symbol(ds[i]))
  }

  predicate InAlphabet(s: string) {
    forall i :: 0 <= i < |s| ==> Rank(s[i]) >= 0
  }

  function Ranks(s: string): (ds: seq<nat>)
    requires InAlphabet(s)
    ensures |ds| == |s| && IsNumeral(58, ds) && Symbols(ds) == s
  {
    seq(|s|, i requires 0 <= i < |s| => Rank(s[i]))
  }

  function Encoding(bytes: seq<byte>): string {
    Symbols(Convert(256, 58, bytes))
  }

  function Decoding(s: string): Option<seq<byte>> {
    if InAlphabet(s) then Some(Convert(58, 256, Ranks(s))) else None
  }

  // ---- encode ----

  /** The accumulator fits 32 bits, and a positive remainder leaves a positive quotient. */
  lemma QuotientDigit(remainder: nat, digit: byte)
    requires remainder < 58
    ensures var acc := (digit + remainder * 256) % 0x1_0000_0000;
            && acc == digit + remainder * 256
            && acc / 58 < 256
            && (remainder > 0 ==> acc / 58 > 0)
            && (remainder == 0 && acc / 58 == 0 ==> acc % 58 == digit)
  {
  }

  lemma DivisionStep(was: seq<nat>, quotient: seq<nat>, remainder: nat, digit: nat, acc: nat)
    requires Value(256, was) == 58 * Value(256, quotient) + remainder
    requires acc == digit + remainder * 256
    ensures Value(256, was + [digit]) == 58 * Value(256, quotient + [acc / 58]) + acc % 58
  {
    ValueStep(256, was, digit);
    ValueStep(256, quotient, acc / 58);
  }

  lemma ValueOfLeadingZeros(s: seq<nat>, n: nat)
    requires n <= |s| && forall k :: 0 <= k < n ==> s[k] == 0
    ensures Value(256, s[..n]) == 0
  {
    assert s[..n] == Zeros(n);
    ValueOfZeros(256, n);
  }

  /** One round of the division: lines 24 to 31 of the source. */
  method DivideBy58(input: array<byte>, start: nat) returns (remainder: nat)
    requires start < input.Length && input[start] != 0
    requires forall k :: 0 <= k < start ==> input[k] == 0
    modifies input
    ensures remainder < 58
    ensures Value(256, old(input[..])) == 58 * Value(256, input[..]) + remainder
    ensures forall k :: 0 <= k < start ==> input[k] == 0
    ensures input[start] == 0 && start + 1 < input.Length ==> input[start + 1] != 0
  {
    hide *;
    ghost var was := input[..];
    remainder := 0;
    var i := start;
    ValueOfLeadingZeros(was, start);
    while i < input.Length
      invariant start <= i <= input.Length
      invariant remainder < 58
      invariant forall k :: i <= k < input.Length ==> input[k] == was[k]
      invariant forall k :: 0 <= k < start ==> input[k] == 0
      invariant Value(256, was[..i]) == 58 * Value(256, input[..i]) + remainder
      invariant i == start + 1 && input[start] == 0 ==> remainder > 0
      invariant i > start + 1 && input[start] == 0 ==> input[start + 1] != 0
    {
      var acc := (input[i] + remainder * 256) % 0x1_0000_0000;
      ghost var quotient := input[..i];
      QuotientDigit(remainder, input[i]);
      DivisionStep(was[..i], quotient, remainder, input[i], acc);
      input[i] := acc / 58;
      remainder := acc % 58;
      i := i + 1;
      assert was[..i] == was[..i - 1] + [was[i - 1]];
      assert input[..i] == quotient + [acc / 58];
    }
    assert was[..i] == was && input[..i] == input[..];
  }

  /** The digits of what is left, then what was put out in reverse, are the digits of `all`. */
  ghost predicate Remains(all: nat, left: nat, out: string) {
    Symbols(Digits(58, all)) == Symbols(Digits(58, left)) + Reverse(out)
  }

  lemma DivisionRound(all: nat, was: nat, quotient: nat, remainder: nat, out: string)
    requires remainder < 58 && was == 58 * quotient + remainder && was > 0 && Remains(all, was, out)
    ensures Remains(all, quotient, out + [Symbol(remainder)])
  {
    DigitsStep(58, quotient, remainder);
    hide Digits, Symbol;
    assert Symbols(Digits(58, was)) == Symbols(Digits(58, quotient)) + [Symbol(remainder)];
    assert Reverse(out + [Symbol(remainder)]) == [Symbol(remainder)] + Reverse(out);
  }

  lemma DivisionStarts(all: nat)
    ensures Remains(all, all, "")
  {
  }

  lemma DivisionEnds(all: nat, out: string)
    requires Remains(all, 0, out)
    ensures out == Reverse(Symbols(Digits(58, all)))
  {
    assert Symbols(Digits(58, 0)) == "";
    hide Digits, Symbols;
    assert Reverse(Reverse(out)) == out;
  }

  lemma SymbolAt(i: nat)
    requires i < 58
    ensures |ALPHABET| == 58 && ALPHABET[i] == Symbol(i)
  {
    AlphabetSymbols();
  }

  lemma FirstSignificant(bytes: seq<byte>, zeros: nat)
    requires zeros < |bytes| && IsCanonical(bytes[zeros..])
    ensures bytes[zeros] != 0
  {
  }

  /** All rounds of the division: lines 21 to 34 of the source. */
  method LongDivision(bytes: seq<byte>, zeros: nat) returns (out: string)
    requires zeros <= |bytes| && IsCanonical(bytes[zeros..])
    requires forall k :: 0 <= k < zeros ==> bytes[k] == 0
    ensures out == Reverse(Symbols(Digits(58, Value(256, bytes))))
  {
    hide *;
    DivisionStarts(Value(256, bytes));
    if zeros < |bytes| { FirstSignificant(bytes, zeros); }
    var input := new byte[|bytes|](i requires 0 <= i < |bytes| => bytes[i]);
    assert input[..] == bytes;
    out := "";
    var start := zeros;
    while start < input.Length
      invariant zeros <= start <= input.Length
      invariant forall k :: 0 <= k < start ==> input[k] == 0
      invariant start < input.Length ==> input[start] != 0
      invariant Remains(Value(256, bytes), Value(256, input[..]), out)
      decreases Value(256, input[..])
    {
      ghost var was := Value(256, input[..]);
      ValueSignificant(256, input[..], start);
      var remainder := DivideBy58(input, start);
      DivisionRound(Value(256, bytes), was, Value(256, input[..]), remainder, out);
      SymbolAt(remainder);
      out := out + [ALPHABET[remainder]];
      if input[start] == 0 {
        start := start + 1;
      }
    }
    ValueOfLeadingZeros(input[..], input.Length);
    assert input[..][..input.Length] == input[..];
    DivisionEnds(Value(256, bytes), out);
  }

  /** Lines 35 and 36: a '1' for each leading zero, then the order is turned round. */
  method PadAndReverse(digits: string, zeros: nat, ghost ds: seq<nat>) returns (s: string)
    requires IsNumeral(58, ds) && digits == Reverse(Symbols(ds))
    ensures s == Symbols(Zeros(zeros) + ds)
  {
    SymbolAt(0);
    var out := digits;
    var one := ALPHABET[0];
    for i := 0 to zeros
      invariant |out| == |ds| + i
      invariant forall k :: 0 <= k < |ds| ==> out[k] == digits[k]
      invariant forall k :: |ds| <= k < |out| ==> out[k] == one
    {
      out := out + [one];
    }
    hide *;
    s := Reverse(out);
    assert one == Symbol(0);
  }

  lemma EncodingSplits(bytes: seq<byte>, zeros: nat)
    requires zeros == LeadingZeros(bytes)
    ensures Encoding(bytes) == Symbols(Zeros(zeros) + Digits(58, Value(256, bytes)))
  {
  }

  method Encode(bytes: seq<byte>) returns (s: string)
    ensures s == Encoding(bytes)
  {
    if bytes == [] {
      return "";
    }
    var zeros := 0;
    while zeros < |bytes| && bytes[zeros] == 0
      invariant zeros <= |bytes| && forall k :: 0 <= k < zeros ==> bytes[k] == 0
    {
      zeros := zeros + 1;
    }
    hide *;
    LeadingZerosUnique(bytes, zeros);
    var digits := LongDivision(bytes, zeros);
    s := PadAndReverse(digits, zeros, Digits(58, Value(256, bytes)));
    assert s == Encoding(bytes) by { EncodingSplits(bytes, zeros); }
  }

  lemma LeadingZerosUnique(s: seq<nat>, z: nat)
    requires z <= |s| && IsCanonical(s[z..]) && forall k :: 0 <= k < z ==> s[k] == 0
    ensures LeadingZeros(s) == z
  {
    if z > 0 {
      assert s[1..][z - 1..] == s[z..];
      LeadingZerosUnique(s[1..], z - 1);
    } else {
      assert s[0..] == s;
    }
  }

  lemma ValueSignificant(base: nat, s: seq<nat>, start: nat)
    requires base >= 1 && start < |s| && s[start] != 0
    requires forall k :: 0 <= k < start ==> s[k] == 0
    ensures Value(base, s) > 0
  {
    assert s == Zeros(start) + s[start..];
    ValueDropsZeros(base, start, s[start..]);
    ValuePositive(base, s[start..]);
  }

  // ---- decode ----

  function LittleEndian(n: nat): (s: seq<nat>)
    ensures IsNumeral(256, s)
  {
    if n == 0 then [] else [n % 256] + LittleEndian(n / 256)
  }

  lemma {:induction false} LittleEndianReversed(n: nat)
    ensures Reverse(LittleEndian(n)) == Digits(256, n)
  {
    if n > 0 {
      LittleEndianReversed(n / 256);
      assert Reverse([n % 256] + LittleEndian(n / 256)) == Reverse(LittleEndian(n / 256)) + [n % 256];
    }
  }

  /** Little-endian `58 * bytes + carry`, as the carry walks up and spills over the end. */
  function MulAdd(bytes: seq<nat>, carry: nat): seq<nat> {
    if bytes == [] then LittleEndian(carry)
    else [(carry + bytes[0] * 58) % 256] + MulAdd(bytes[1..], (carry + bytes[0] * 58) / 256)
  }

  lemma {:induction false} MulAddValue(n: nat, carry: nat)
    requires carry < 58
    ensures MulAdd(LittleEndian(n), carry) == LittleEndian(58 * n + carry)
    decreases n
  {
    if n > 0 {
      var q, r := n / 256, n % 256;
      var t := carry + r * 58;
      MulAddValue(q, t / 256);
      assert LittleEndian(n)[1..] == LittleEndian(q);
      MulAddSplit(q, r, t, n, carry);
      assert LittleEndian(58 * n + carry) == [t % 256] + LittleEndian(58 * q + t / 256);
    }
  }

  lemma MulAddSplit(q: nat, r: nat, t: nat, n: nat, carry: nat)
    requires n == 256 * q + r && t == carry + r * 58
    ensures (58 * n + carry) % 256 == t % 256 && (58 * n + carry) / 256 == 58 * q + t / 256
  {
    assert 58 * n + carry == (58 * q + t / 256) * 256 + t % 256;
    DivUnique(58 * q + t / 256, t % 256, 256);
  }

  lemma MulAddStep(bytes: seq<nat>, j: nat, carry: nat, t: nat)
    requires j < |bytes| && t == carry + bytes[j] * 58
    ensures MulAdd(bytes[j..], carry) == [t % 256] + MulAdd(bytes[j + 1..], t / 256)
  {
    assert bytes[j..][1..] == bytes[j + 1..];
  }

  lemma MulAddOfNone(carry: nat)
    ensures MulAdd([], carry) == LittleEndian(carry)
  {
  }

  /** The carry that is left goes over the end: line 53 of the source. */
  method Spill(bytes: seq<byte>, left: nat) returns (r: seq<byte>)
    ensures r == bytes + LittleEndian(left)
  {
    r := bytes;
    var carry := left;
    while carry > 0
      invariant bytes + LittleEndian(left) == r + LittleEndian(carry)
    {
      r := r + [carry % 256];
      carry := carry / 256;
    }
  }

  /** One character's worth of accumulation: lines 47 to 53 of the source. */
  method MultiplyAndAdd(bytes: seq<byte>, digit: nat) returns (r: seq<byte>)
    requires digit < 58
    ensures r == MulAdd(bytes, digit)
  {
    r := bytes;
    var carry: nat := digit;
    assert bytes[0..] == bytes;
    hide *;
    for j := 0 to |bytes|
      invariant |r| == |bytes| && r[j..] == bytes[j..]
      invariant MulAdd(bytes, digit) == r[..j] + MulAdd(bytes[j..], carry)
    {
      ghost var front, carryIn := r[..j], carry;
      carry := carry + r[j] as int * 58;
      MulAddStep(bytes, j, carryIn, carry);
      r := r[j := carry % 256];
      assert r[..j + 1] == front + [carry % 256];
      carry := carry / 256;
    }
    assert r[..|bytes|] == r;
    MulAddOfNone(carry);
    assert bytes[|bytes|..] == [];
    r := Spill(r, carry);
  }

  /** All characters: lines 44 to 54 of the source. */
  method Accumulate(s: string) returns (r: Option<seq<byte>>)
    ensures r == if InAlphabet(s) then Some(LittleEndian(Value(58, Ranks(s)))) else None
  {
    hide Value;
    var table := BuildMap();
    var bytes: seq<byte> := [];
    ValueOfZeros(58, 0);
    for n := 0 to |s|
      invariant forall k :: 0 <= k < 128 ==> table[k] == Rank(k as char)
      invariant InAlphabet(s[..n])
      invariant bytes == LittleEndian(Value(58, Ranks(s[..n])))
    {
      var c := s[n];
      if c as int >= 128 || table[c as int] == -1 {
        return None;
      }
      assert s[..n + 1] == s[..n] + [c];
      assert Ranks(s[..n + 1]) == Ranks(s[..n]) + [Rank(c)];
      ValueStep(58, Ranks(s[..n]), Rank(c));
      MulAddValue(Value(58, Ranks(s[..n])), Rank(c));
      bytes := MultiplyAndAdd(bytes, table[c as int]);
    }
    assert s[..|s|] == s;
    return Some(bytes);
  }

  lemma ReversePadded(body: seq<byte>, zeros: nat, digits: seq<nat>)
    requires Reverse<nat>(body) == digits
    ensures Reverse<byte>(body + Zeros(zeros)) == Zeros(zeros) + digits
  {
    forall i | 0 <= i < zeros + |body|
      ensures Reverse<byte>(body + Zeros(zeros))[i] == (Zeros(zeros) + digits)[i]
    {
    }
  }

  method Decode(s: string) returns (r: Option<seq<byte>>)
    ensures r == Decoding(s)
  {
    if s == "" {
      assert Ranks(s) == [];
      return Some([]);
    }
    var zeros := 0;
    SymbolAt(0);
    while zeros < |s| && s[zeros] == ALPHABET[0]
      invariant zeros <= |s| && forall k :: 0 <= k < zeros ==> s[k] == '1'
    {
      zeros := zeros + 1;
    }
    r := Accumulate(s);
    if r == None {
      return;
    }
    hide Value, Digits, LittleEndian;
    ghost var body := r.value;
    var bytes := r.value;
    for i := 0 to zeros
      invariant bytes == body + Zeros(i)
    {
      bytes := bytes + [0];
    }
    LeadingZerosUnique(Ranks(s), zeros);
    LittleEndianReversed(Value(58, Ranks(s)));
    ReversePadded(body, zeros, Digits(256, Value(58, Ranks(s))));
    return Some(Reverse(bytes));
  }

  // ---- the two directions are inverse ----

  lemma LeadingZerosOf(z: nat, d: seq<nat>)
    requires IsCanonical(d)
    ensures LeadingZeros(Zeros(z) + d) == z
  {
    assert (Zeros(z) + d)[z..] == d;
    LeadingZerosUnique(Zeros(z) + d, z);
  }

  /** A numeral is its leading zeros and the digits of its value. */
  lemma {:induction false} Recompose(base: nat, s: seq<nat>)
    requires base >= 2 && IsNumeral(base, s)
    ensures s == Zeros(LeadingZeros(s)) + Digits(base, Value(base, s))
  {
    hide Value, Digits;
    var z := LeadingZeros(s);
    assert s == Zeros(z) + s[z..];
    ValueDropsZeros(base, z, s[z..]);
    assert IsNumeral(base, s[z..]);
    DigitsOfValue(base, s[z..]);
  }

  lemma {:induction false} ConvertInverse(from: nat, to: nat, s: seq<nat>)
    requires from >= 2 && to >= 2 && IsNumeral(from, s)
    ensures Convert(to, from, Convert(from, to, s)) == s
  {
    hide Value, Digits;
    var z, n := LeadingZeros(s), Value(from, s);
    var d := Digits(to, n);
    LeadingZerosOf(z, d);
    ValueDropsZeros(to, z, d);
    ValueOfDigits(to, n);
    Recompose(from, s);
  }

  lemma RanksOfSymbols(ds: seq<nat>)
    requires IsNumeral(58, ds)
    ensures InAlphabet(Symbols(ds)) && Ranks(Symbols(ds)) == ds
  {
    forall i | 0 <= i < |ds| ensures Rank(Symbols(ds)[i]) == ds[i] {
      RankOfSymbol(ds[i]);
    }
  }

  /** encode and decode are a bijection between byte strings and strings over the alphabet. */
  lemma {:induction false} Bijection(bytes: seq<byte>, s: string)
    ensures Encoding(bytes) == s <==> Decoding(s) == Some(bytes)
    ensures Decoding(s) == None <==> exists i :: 0 <= i < |s| && s[i] !in ALPHABET
  {
    hide Value, Digits;
    forall i | 0 <= i < |s| ensures s[i] in ALPHABET <==> Rank(s[i]) >= 0 {
      RankDecidesMembership(s[i]);
    }
    RanksOfSymbols(Convert(256, 58, bytes));
    ConvertInverse(256, 58, bytes);
    if InAlphabet(s) {
      ConvertInverse(58, 256, Ranks(s));
    }
  }

  /** A vector of the Base58 draft: two zero bytes and the number 0x287fb4cd. */
  lemma DraftVector()
    ensures Encoding([0x00, 0x00, 0x28, 0x7f, 0xb4, 0xcd]) == "11233QC4"
  {
    var bytes: seq<byte> := [0x00, 0x00, 0x28, 0x7f, 0xb4, 0xcd];
    var digits: seq<nat> := [1, 2, 2, 23, 11, 3];
    VectorValues();
    DigitsOfValue(58, digits);
    LeadingZerosUnique(bytes, 2);
    hide Value, Digits, LeadingZeros;
    assert Symbols(Zeros(2) + digits) == "11233QC4";
  }

  lemma VectorValues()
    ensures Value(256, [0x00, 0x00, 0x28, 0x7f, 0xb4, 0xcd]) == 0x287f_b4cd
    ensures Value(58, [1, 2, 2, 23, 11, 3]) == 0x287f_b4cd
  {
    var b: seq<nat> := [0x00, 0x00, 0x28, 0x7f, 0xb4, 0xcd];
    assert b == b[..6] && b[..5] == b[..6][..5] && b[..4] == b[..5][..4];
    assert b[..3] == b[..4][..3] && b[..2] == b[..3][..2] && b[..1] == b[..2][..1] && b[..0] == b[..1][..0];
    assert Value(256, b[..0]) == 0 && Value(256, b[..1]) == 0 && Value(256, b[..2]) == 0;
    assert Value(256, b[..3]) == 0x28 && Value(256, b[..4]) == 0x287f && Value(256, b[..5]) == 0x28_7fb4;
    var d: seq<nat> := [1, 2, 2, 23, 11, 3];
    assert d == d[..6] && d[..5] == d[..6][..5] && d[..4] == d[..5][..4];
    assert d[..3] == d[..4][..3] && d[..2] == d[..3][..2] && d[..1] == d[..2][..1] && d[..0] == d[..1][..0];
    assert Value(58, d[..0]) == 0 && Value(58, d[..1]) == 1 && Value(58, d[..2]) == 60;
    assert Value(58, d[..3]) == 3482 && Value(58, d[..4]) == 201979 && Value(58, d[..5]) == 11714793;
  }

  // ---- lengths ----

  lemma {:induction false} PowMul(base: nat, m: nat, n: nat)
    ensures Pow(base, m * n) == Pow(Pow(base, m), n)
  {
    if n > 0 {
      PowMul(base, m, n - 1);
      assert m * n == m * (n - 1) + m;
      PowAdd(base, m * (n - 1), m);
    }
  }

  lemma {:induction false} PowBaseMono(a: nat, b: nat, n: nat)
    requires a <= b
    ensures Pow(a, n) <= Pow(b, n)
  {
    if n > 0 {
      PowBaseMono(a, b, n - 1);
      MulMono(Pow(a, n - 1), a, Pow(b, n - 1), b);
    }
  }

  lemma {:induction false} PowBaseStrict(a: nat, b: nat, n: nat)
    requires a < b && n > 0
    ensures Pow(a, n) < Pow(b, n)
  {
    PowBaseMono(a, b, n - 1);
    PowPositive(b, n - 1);
    MulMono(Pow(a, n - 1), a, Pow(b, n - 1), a);
    assert Pow(b, n - 1) * b == Pow(b, n - 1) * a + Pow(b, n - 1) * (b - a);
    MulMono(1, 1, Pow(b, n - 1), b - a);
  }

  /** 58^k <= v < 256^n and 256^p <= 58^q bound k by n. */
  lemma {:induction false} ExponentBound(k: nat, n: nat, p: nat, q: nat)
    requires p >= 1 && Pow(256, p) <= Pow(58, q) && Pow(58, k) < Pow(256, n)
    ensures p * k < q * n
  {
    if q * n <= k * p {
      PowBaseStrict(Pow(58, k), Pow(256, n), p);
      PowMul(58, k, p);
      PowMul(256, n, p);
      PowMul(256, p, n);
      PowBaseMono(Pow(256, p), Pow(58, q), n);
      PowMul(58, q, n);
      assert n * p == p * n;
      PowMono(58, q * n, k * p);
      assert false;
    }
  }

  lemma {:induction false} DigitCounts(b: seq<nat>, d: seq<nat>)
    requires IsNumeral(256, b) && IsCanonical(b) && IsNumeral(58, d) && IsCanonical(d)
    requires Value(256, b) == Value(58, d)
    ensures |b| <= |d|
    ensures d != [] ==> Pow(58, |d| - 1) < Pow(256, |b|)
  {
    ValueBelowPow(256, b);
    ValueBelowPow(58, d);
    if d != [] {
      ValueAtLeastPow(58, d);
    }
    if |d| < |b| {
      ValueAtLeastPow(256, b);
      PowBaseMono(58, 256, |d|);
      PowMono(256, |d|, |b| - 1);
      assert false;
    }
  }

  lemma LinearBound(p: nat, q: nat, z: nat, n: nat, m: nat)
    requires 1 <= p <= q && (m == 0 || p * (m - 1) < q * n)
    ensures p * (z + m) <= q * (z + n) + p - 1
  {
    MulMono(p, z, q, z);
    assert p * (z + m) == p * z + p * m;
    assert q * (z + n) == q * z + q * n;
    if m > 0 { assert p * (m - 1) == p * m - p; }
  }

  /** Every rational exponent q/p with 256^p <= 58^q bounds the growth of an encoding. */
  lemma {:induction false} EncodingLength(bytes: seq<byte>, p: nat, q: nat)
    requires 1 <= p <= q && Pow(256, p) <= Pow(58, q)
    ensures |bytes| <= |Encoding(bytes)|
    ensures p * |Encoding(bytes)| <= q * |bytes| + p - 1
  {
    hide Value, Digits, Pow;
    var z, v := LeadingZeros(bytes), Value(256, bytes);
    var b, d := Digits(256, v), Digits(58, v);
    Recompose(256, bytes);
    ValueOfDigits(256, v);
    ValueOfDigits(58, v);
    DigitCounts(b, d);
    if d != [] {
      ExponentBound(|d| - 1, |b|, p, q);
    }
    LinearBound(p, q, z, |b|, |d|);
  }

  lemma AddressLength(bytes: seq<byte>)
    ensures |bytes| <= |Encoding(bytes)|
    ensures 5 * |Encoding(bytes)| <= 7 * |bytes| + 4
    ensures |bytes| == 32 ==> 32 <= |Encoding(bytes)| <= 44
  {
    assert Pow(256, 5) == 0x100_0000_0000;
    assert Pow(58, 7) == 2207984167552;
    EncodingLength(bytes, 5, 7);
    assert Pow(256, 8) == 0x1_0000_0000_0000_0000;
    assert Pow(58, 11) == 2207984167552 * 58 * 58 * 58 * 58;
    EncodingLength(bytes, 8, 11);
  }
}
