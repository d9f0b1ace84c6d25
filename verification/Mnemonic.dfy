/**
 BIP-39 recovery phrases (packages/xend/ios/Classes/Mnemonic.swift:16-87): entropy to words
 and back. SHA-256, the word table and NFKD are parameters; the lemmas say which of their
 properties they use.
 */
module Mnemonic {
  import opened Numerals
  import opened Wrappers

  type Digest = s: seq<byte> | |s| == 32 witness seq(32, _ => 0)

  datatype Bip39 = Bip39(words: seq<string>, sha256: seq<byte> -> Digest, nfkd: string -> string)

  datatype MnemonicError = InvalidWordCount | UnknownWord(word: string) | InvalidChecksum

  // ---- bits in groups ----

  /** The length of n groups of `width` bits. */
  function Span(width: nat, n: nat): nat { width * n }

  /** Each number as `width` bits, most significant first. */
  function Ungroup(width: nat, ns: seq<nat>): (bits: seq<nat>)
    requires IsNumeral(Pow(2, width), ns)
    ensures |bits| == Span(width, |ns|) && IsNumeral(2, bits)
  {
    SpanStep(width, |ns|);
    if ns == [] then []
    else Ungroup(width, ns[..|ns| - 1]) + Fixed(2, width, ns[|ns| - 1])
  }

  /** The values of consecutive groups of `width` bits. */
  function Group(width: nat, bits: seq<nat>): (ns: seq<nat>)
    requires width > 0 && IsNumeral(2, bits)
    ensures IsNumeral(Pow(2, width), ns)
  {
    if |bits| < width then []
    else
      ValueBelowPow(2, bits[|bits| - width..]);
      Group(width, bits[..|bits| - width]) + [Value(2, bits[|bits| - width..])]
  }

  lemma {:induction false} GroupAppend(width: nat, front: seq<nat>, last: seq<nat>)
    requires width > 0 && IsNumeral(2, front) && IsNumeral(2, last) && |last| == width
    ensures Group(width, front + last) == Group(width, front) + [Value(2, last)]
    ensures Ungroup(width, Group(width, front + last)) == Ungroup(width, Group(width, front)) + last
  {
    hide Pow, Value, Fixed;
    var bits := front + last;
    assert bits[|bits| - width..] == last && bits[..|bits| - width] == front;
    FixedOfValue(2, last);
  }

  lemma {:induction false} GroupUngroup(width: nat, ns: seq<nat>)
    requires width > 0 && IsNumeral(Pow(2, width), ns)
    ensures Group(width, Ungroup(width, ns)) == ns
  {
    if ns != [] {
      var front, last := ns[..|ns| - 1], ns[|ns| - 1];
      hide Group, Pow, Value, Fixed;
      GroupUngroup(width, front);
      ValueOfFixed(2, width, last);
      GroupAppend(width, Ungroup(width, front), Fixed(2, width, last));
      assert ns == front + [last];
    }
  }

  lemma SpanStep(width: nat, n: nat)
    ensures Span(width, 0) == 0
    ensures n > 0 ==> Span(width, n) == Span(width, n - 1) + width
  {
  }

  lemma {:induction false} UngroupGroup(width: nat, bits: seq<nat>, n: nat)
    requires width > 0 && IsNumeral(2, bits) && |bits| == Span(width, n)
    ensures |Group(width, bits)| == n && Ungroup(width, Group(width, bits)) == bits
  {
    hide Pow, Value, Fixed, Span;
    SpanStep(width, n);
    if n > 0 {
      hide Group, Ungroup;
      var front, last := bits[..|bits| - width], bits[|bits| - width..];
      UngroupGroup(width, front, n - 1);
      GroupAppend(width, front, last);
      assert bits == front + last;
    }
  }

  lemma {:induction false} UngroupAt(width: nat, ns: seq<nat>, k: nat, j: nat)
    requires IsNumeral(Pow(2, width), ns) && k < |ns| && j < width
    ensures Span(width, k) + j < |Ungroup(width, ns)|
    ensures Ungroup(width, ns)[Span(width, k) + j] == DigitAt(2, ns[k], width - 1 - j)
  {
    var n := |ns| - 1;
    SpanStep(width, |ns|);
    if k == n {
      FixedDigit(2, width, ns[n], width - 1 - j);
    } else {
      UngroupAt(width, ns[..n], k, j);
    }
  }

  /** `String(n, radix: 2)`, whose zero is "0". */
  function Binary(n: nat): seq<nat> {
    if n == 0 then [0] else Digits(2, n)
  }

  /** `String(repeating: "0", count: width - binary.count) + binary` */
  function Padded(width: nat, n: nat): (bits: seq<nat>)
    requires width > 0 && n < Pow(2, width)
    ensures bits == Fixed(2, width, n)
  {
    DigitsWidth(2, width, n);
    Zeros(width - |Binary(n)|) + Binary(n)
  }

  lemma Powers()
    ensures Pow(2, 8) == 256 && Pow(2, 11) == 2048
  {
  }

  function BitString(data: seq<byte>): (bits: seq<nat>)
    ensures (Powers(); bits == Ungroup(8, data))
  {
    Powers();
    if data == [] then [] else BitString(data[..|data| - 1]) + Padded(8, data[|data| - 1])
  }

  // ---- encoding ----

  function Min(a: nat, b: nat): nat { if a < b then a else b }

  /** The first `n` bits of the hash, or all 256. */
  function Checksum(b: Bip39, entropy: seq<byte>, n: nat): (bits: seq<nat>)
    ensures |bits| == Min(n, 256) && IsNumeral(2, bits)
  {
    Powers();
    BitString(b.sha256(entropy))[..Min(n, 256)]
  }

  function PhraseBits(b: Bip39, entropy: seq<byte>): (bits: seq<nat>)
    ensures |bits| == 8 * |entropy| + Min(|entropy| * 8 / 32, 256) && IsNumeral(2, bits)
  {
    BitString(entropy) + Checksum(b, entropy, |entropy| * 8 / 32)
  }

  /** The bits divide into 11-bit groups; the source traps on any other entropy. */
  predicate Encodable(entropy: seq<byte>) {
    (8 * |entropy| + Min(|entropy| * 8 / 32, 256)) % 11 == 0
  }

  function WordsAt(words: seq<string>, indices: seq<nat>): (ws: seq<string>)
    requires IsNumeral(|words|, indices)
    ensures |ws| == |indices|
  {
    seq(|indices|, i requires 0 <= i < |indices| => words[indices[i]])
  }

  function PhraseWords(b: Bip39, entropy: seq<byte>): seq<string>
    requires |b.words| == 2048
  {
    Powers();
    WordsAt(b.words, Group(11, PhraseBits(b, entropy)))
  }

  function Join(ws: seq<string>): string {
    if ws == [] then "" else if |ws| == 1 then ws[0] else ws[0] + " " + Join(ws[1..])
  }

  lemma GroupOfNone(width: nat, bits: seq<nat>)
    requires width > 0 && IsNumeral(2, bits)
    ensures Group(width, bits[..0]) == []
  {
  }

  lemma GroupStep(width: nat, bits: seq<nat>, start: nat)
    requires width > 0 && IsNumeral(2, bits) && start + width <= |bits|
    ensures Value(2, bits[start..start + width]) < Pow(2, width)
    ensures Group(width, bits[..start + width]) == Group(width, bits[..start]) + [Value(2, bits[start..start + width])]
  {
    ValueBelowPow(2, bits[start..start + width]);
    var taken := bits[..start + width];
    assert taken[..start] == bits[..start];
    assert taken[start..] == bits[start..start + width];
  }

  method Encode(b: Bip39, entropy: seq<byte>) returns (phrase: string)
    requires |b.words| == 2048 && Encodable(entropy)
    ensures phrase == Join(PhraseWords(b, entropy))
  {
    Powers();
    hide Value, Group, Pow, BitString, Checksum;
    var checksumBits := |entropy| * 8 / 32;
    var bits := BitString(entropy) + Checksum(b, entropy, checksumBits);
    var words: seq<string> := [];
    var start := 0;
    ghost var k, n := 0, |bits| / 11;
    GroupOfNone(11, bits);
    while start < |bits|
      invariant start == 11 * k && |bits| == 11 * n && k <= n
      invariant words == WordsAt(b.words, Group(11, bits[..start]))
    {
      var end := start + 11;
      GroupStep(11, bits, start);
      words := words + [b.words[Value(2, bits[start..end])]];
      start := end;
      k := k + 1;
    }
    assert bits[..start] == bits;
    phrase := Join(words);
  }

  // ---- recovery ----

  /** `split(separator: " ")`, which drops empty pieces; `word` is the piece being read. */
  function SplitFrom(text: string, word: string): seq<string> {
    if text == "" then Piece(word)
    else if text[0] == ' ' then Piece(word) + SplitFrom(text[1..], "")
    else SplitFrom(text[1..], word + [text[0]])
  }

  function Piece(word: string): seq<string> {
    if word == "" then [] else [word]
  }

  function Split(text: string): seq<string> {
    SplitFrom(text, "")
  }

  /** Where the index dictionary, filled in table order, ends up pointing. */
  function PositionOf(words: seq<string>, word: string): (p: Option<nat>)
    ensures p == None <==> word !in words
    ensures p.Some? ==> p.value < |words| && words[p.value] == word
  {
    if words == [] then None
    else if words[|words| - 1] == word then Some(|words| - 1)
    else
      assert word in words ==> word in words[..|words| - 1];
      PositionOf(words[..|words| - 1], word)
  }

  method BuildWordIndex(words: seq<string>) returns (index: map<string, nat>)
    ensures forall w :: w in index <==> PositionOf(words, w).Some?
    ensures forall w :: w in index ==> PositionOf(words, w) == Some(index[w])
  {
    index := map[];
    for position := 0 to |words|
      invariant forall w :: w in index <==> PositionOf(words[..position], w).Some?
      invariant forall w :: w in index ==> PositionOf(words[..position], w) == Some(index[w])
    {
      assert words[..position + 1][..position] == words[..position];
      index := index[words[position] := position];
    }
    assert words[..|words|] == words;
  }

  function FirstUnknown(words: seq<string>, ws: seq<string>): (w: Option<string>)
    ensures w == None <==> forall i :: 0 <= i < |ws| ==> ws[i] in words
    ensures w.Some? ==> w.value in ws && w.value !in words
  {
    if ws == [] then None
    else
      var front := FirstUnknown(words, ws[..|ws| - 1]);
      if front.Some? then front
      else if ws[|ws| - 1] !in words then Some(ws[|ws| - 1])
      else None
  }

  function Indices(words: seq<string>, ws: seq<string>): (ns: seq<nat>)
    requires forall i :: 0 <= i < |ws| ==> ws[i] in words
    ensures |ns| == |ws| && IsNumeral(|words|, ns) && WordsAt(words, ns) == ws
  {
    seq(|ws|, i requires 0 <= i < |ws| => PositionOf(words, ws[i]).value)
  }

  const WORD_COUNTS := {12, 15, 18, 21, 24}

  /** The entropy in a string of phrase bits, if its checksum holds. */
  function Checked(b: Bip39, bits: seq<nat>): Result<seq<byte>, MnemonicError>
    requires IsNumeral(2, bits)
  {
    var n := |bits| / 33;
    Powers();
    var entropy: seq<byte> := Group(8, bits[..|bits| - n]);
    if bits[|bits| - n..] == Checksum(b, entropy, n) then Ok(entropy) else Err(InvalidChecksum)
  }

  function Recovered(b: Bip39, mnemonic: string): Result<seq<byte>, MnemonicError>
    requires |b.words| == 2048
  {
    var ws := Split(b.nfkd(mnemonic));
    Powers();
    if |ws| !in WORD_COUNTS then Err(InvalidWordCount)
    else match FirstUnknown(b.words, ws)
      case Some(word) => Err(UnknownWord(word))
      case None => Checked(b, Ungroup(11, Indices(b.words, ws)))
  }

  /** Lines 64 to 69: the words' indices as bits. */
  method CollectBits(b: Bip39, words: seq<string>) returns (r: Result<seq<nat>, MnemonicError>)
    requires |b.words| == 2048
    ensures match FirstUnknown(b.words, words)
            case Some(word) => r == Err(UnknownWord(word))
            case None => (Powers(); r == Ok(Ungroup(11, Indices(b.words, words))))
  {
    Powers();
    hide Pow, Fixed;
    var wordIndex := BuildWordIndex(b.words);
    var bits: seq<nat> := [];
    for i := 0 to |words|
      invariant FirstUnknown(b.words, words[..i]) == None
      invariant bits == Ungroup(11, Indices(b.words, words[..i]))
    {
      assert words[..i + 1][..i] == words[..i];
      if words[i] !in wordIndex {
        FirstUnknownStays(b.words, words, i);
        return Err(UnknownWord(words[i]));
      }
      assert Indices(b.words, words[..i + 1])[..i] == Indices(b.words, words[..i]);
      bits := bits + Padded(11, wordIndex[words[i]]);
    }
    assert words[..|words|] == words;
    return Ok(bits);
  }

  /** Lines 76 to 82: groups of eight bits as bytes. */
  method PackBytes(entropyBits: seq<nat>, ghost n: nat) returns (entropy: seq<byte>)
    requires IsNumeral(2, entropyBits) && |entropyBits| == 8 * n
    ensures entropy == Group(8, entropyBits)
  {
    Powers();
    hide Value, Group, Pow;
    entropy := [];
    var start := 0;
    ghost var k := 0;
    GroupOfNone(8, entropyBits);
    while start < |entropyBits|
      invariant start == 8 * k && k <= n
      invariant entropy == Group(8, entropyBits[..start])
    {
      var end := start + 8;
      GroupStep(8, entropyBits, start);
      entropy := entropy + [Value(2, entropyBits[start..end])];
      start := end;
      k := k + 1;
    }
    assert entropyBits[..start] == entropyBits;
  }

  /** Lines 71 to 86: entropy, checksum, comparison. */
  method CheckBits(b: Bip39, bits: seq<nat>, ghost k: nat) returns (r: Result<seq<byte>, MnemonicError>)
    requires IsNumeral(2, bits) && |bits| == 33 * k
    ensures r == Checked(b, bits)
  {
    hide Group, Checksum, Pow;
    var checksumLength := |bits| / 33;
    var entropyLength := |bits| - checksumLength;
    assert entropyLength == 8 * (4 * k);
    var entropy := PackBytes(bits[..entropyLength], 4 * k);
    var expected := Checksum(b, entropy, checksumLength);
    if bits[entropyLength..] != expected {
      return Err(InvalidChecksum);
    }
    return Ok(entropy);
  }

  method EntropyFrom(b: Bip39, mnemonic: string) returns (r: Result<seq<byte>, MnemonicError>)
    requires |b.words| == 2048
    ensures r == Recovered(b, mnemonic)
  {
    hide Group, Ungroup, Split, Indices, Checked, Pow;
    var words := Split(b.nfkd(mnemonic));
    if |words| !in WORD_COUNTS {
      return Err(InvalidWordCount);
    }
    var collected := CollectBits(b, words);
    if collected.Err? {
      return Err(collected.error);
    }
    r := CheckBits(b, collected.value, |words| / 3);
  }

  lemma {:induction false} FirstUnknownStays(words: seq<string>, ws: seq<string>, i: nat)
    requires i < |ws| && FirstUnknown(words, ws[..i]) == None && ws[i] !in words
    ensures FirstUnknown(words, ws) == Some(ws[i])
    decreases |ws|
  {
    if i == |ws| - 1 {
    } else {
      assert ws[..|ws| - 1][..i] == ws[..i];
      FirstUnknownStays(words, ws[..|ws| - 1], i);
    }
  }

  // ---- what holds of any word table ----

  predicate IsWord(w: string) {
    w != "" && forall i :: 0 <= i < |w| ==> w[i] != ' '
  }

  ghost predicate AllWords(ws: seq<string>) {
    forall i :: 0 <= i < |ws| ==> IsWord(ws[i])
  }

  ghost predicate FromTable(b: Bip39, ws: seq<string>) {
    forall i :: 0 <= i < |ws| ==> ws[i] in b.words
  }

  /** 2048 distinct words, and a normalisation that leaves phrases of them alone. */
  ghost predicate Standard(b: Bip39) {
    && |b.words| == 2048
    && AllWords(b.words)
    && (forall i, j :: 0 <= i < j < 2048 ==> b.words[i] != b.words[j])
    && (forall ws :: FromTable(b, ws) ==> b.nfkd(Join(ws)) == Join(ws))
  }

  const ENTROPY_SIZES := {16, 20, 24, 28, 32}

  lemma {:induction false} SplitWord(w: string, rest: string, word: string)
    requires forall i :: 0 <= i < |w| ==> w[i] != ' '
    ensures SplitFrom(w + rest, word) == SplitFrom(rest, word + w)
    decreases |w|
  {
    if w == "" {
      assert w + rest == rest && word + w == word;
    } else {
      assert (w + rest)[1..] == w[1..] + rest;
      SplitWord(w[1..], rest, word + [w[0]]);
      assert word + [w[0]] + w[1..] == word + w;
    }
  }

  lemma {:induction false} SplitJoin(ws: seq<string>)
    requires AllWords(ws)
    ensures Split(Join(ws)) == ws
  {
    if |ws| == 1 {
      SplitWord(ws[0], "", "");
      assert ws[0] + "" == ws[0] && "" + ws[0] == ws[0];
    } else if |ws| > 1 {
      var rest := " " + Join(ws[1..]);
      SplitJoin(ws[1..]);
      assert Join(ws) == ws[0] + rest;
      SplitWord(ws[0], rest, "");
      assert "" + ws[0] == ws[0];
      assert rest[1..] == Join(ws[1..]);
    }
  }

  lemma {:induction false} SplitFromAtSpace(x: string, y: string, word: string)
    ensures SplitFrom(x + " " + y, word) == SplitFrom(x, word) + SplitFrom(y, "")
    decreases |x|
  {
    if x == "" {
      assert x + " " + y == " " + y && (" " + y)[1..] == y;
    } else {
      assert (x + " " + y)[1..] == x[1..] + " " + y;
      if x[0] == ' ' { SplitFromAtSpace(x[1..], y, ""); }
      else { SplitFromAtSpace(x[1..], y, word + [x[0]]); }
    }
  }

  /** The words of a text, wherever its spaces are: these equations leave no other split. */
  lemma SplitEquations(x: string, y: string, w: string)
    ensures Split(x + " " + y) == Split(x) + Split(y)
    ensures ' ' !in w ==> Split(w) == if w == "" then [] else [w]
  {
    SplitFromAtSpace(x, y, "");
    if ' ' !in w {
      SplitWord(w, "", "");
      assert w + "" == w && "" + w == w;
    }
  }

  lemma {:induction false} PositionUnique(words: seq<string>, p: nat)
    requires p < |words| && forall i, j :: 0 <= i < j < |words| ==> words[i] != words[j]
    ensures PositionOf(words, words[p]) == Some(p)
  {
  }

  lemma IndicesOfWords(b: Bip39, ns: seq<nat>)
    requires Standard(b) && IsNumeral(2048, ns)
    ensures forall i :: 0 <= i < |ns| ==> WordsAt(b.words, ns)[i] in b.words
    ensures Indices(b.words, WordsAt(b.words, ns)) == ns
  {
    forall i | 0 <= i < |ns| ensures PositionOf(b.words, WordsAt(b.words, ns)[i]) == Some(ns[i]) {
      PositionUnique(b.words, ns[i]);
    }
  }

  lemma CheckedOfPhraseBits(b: Bip39, entropy: seq<byte>)
    requires |entropy| in ENTROPY_SIZES
    ensures Checked(b, PhraseBits(b, entropy)) == Ok(entropy)
  {
    Powers();
    var bits := PhraseBits(b, entropy);
    var n := |entropy| / 4;
    assert |bits| / 33 == n && |bits| - n == 8 * |entropy|;
    assert bits[..|bits| - n] == BitString(entropy);
    assert bits[|bits| - n..] == Checksum(b, entropy, n);
    GroupUngroup(8, entropy);
  }

  lemma SizesDivide(n: nat)
    requires n in ENTROPY_SIZES
    ensures 8 * n + Min(n * 8 / 32, 256) == 11 * (n * 3 / 4) && n * 3 / 4 in WORD_COUNTS
    ensures (8 * n + Min(n * 8 / 32, 256)) % 11 == 0
  {
    assert n == 16 || n == 20 || n == 24 || n == 28 || n == 32;
  }

  lemma PhraseSize(b: Bip39, entropy: seq<byte>)
    requires |entropy| in ENTROPY_SIZES
    ensures |PhraseBits(b, entropy)| == 11 * (|entropy| * 3 / 4) && |entropy| * 3 / 4 in WORD_COUNTS
    ensures Encodable(entropy)
  {
    hide PhraseBits;
    SizesDivide(|entropy|);
  }

  lemma PhraseLength(b: Bip39, entropy: seq<byte>)
    requires |b.words| == 2048 && |entropy| in ENTROPY_SIZES
    ensures |PhraseWords(b, entropy)| == |entropy| * 3 / 4 >= 12
  {
    Powers();
    hide Group, Ungroup, Pow, PhraseBits;
    PhraseSize(b, entropy);
    UngroupGroup(11, PhraseBits(b, entropy), |entropy| * 3 / 4);
  }

  /** Every standard-size entropy survives the trip through its phrase. */
  lemma EntropyOfPhrase(b: Bip39, entropy: seq<byte>)
    requires Standard(b) && |entropy| in ENTROPY_SIZES
    ensures Encodable(entropy)
    ensures Recovered(b, Join(PhraseWords(b, entropy))) == Ok(entropy)
  {
    Powers();
    hide Group, Ungroup, Checksum, Checked, Split, Join, Pow, PhraseBits, Encodable;
    var bits, ws := PhraseBits(b, entropy), PhraseWords(b, entropy);
    PhraseSize(b, entropy);
    UngroupGroup(11, bits, |entropy| * 3 / 4);
    IndicesOfWords(b, Group(11, bits));
    SplitJoin(ws);
    assert FirstUnknown(b.words, ws) == None;
    CheckedOfPhraseBits(b, entropy);
  }

  lemma PhraseBitsOfChecked(b: Bip39, bits: seq<nat>, k: nat)
    requires IsNumeral(2, bits) && |bits| == 33 * k && k <= 8 && Checked(b, bits).Ok?
    ensures |Checked(b, bits).value| == 4 * k && PhraseBits(b, Checked(b, bits).value) == bits
  {
    Powers();
    ThirtyThirds(k);
    hide Group, Ungroup, Checksum, Pow, BitString;
    var entropy := Checked(b, bits).value;
    UngroupGroup(8, bits[..32 * k], 4 * k);
    assert BitString(entropy) == bits[..32 * k];
    assert bits == bits[..32 * k] + bits[32 * k..];
  }

  lemma ThirtyThirds(k: nat)
    ensures 33 * k / 33 == k && 33 * k - k == 32 * k && 4 * k * 8 / 32 == k && Span(8, 4 * k) == 32 * k
  {
  }

  /** The words of an accepted phrase are those its entropy encodes to. */
  lemma PhraseOfEntropy(b: Bip39, mnemonic: string)
    requires Standard(b) && Recovered(b, mnemonic).Ok?
    ensures |Recovered(b, mnemonic).value| in ENTROPY_SIZES
    ensures PhraseWords(b, Recovered(b, mnemonic).value) == Split(b.nfkd(mnemonic))
  {
    Powers();
    hide Group, Ungroup, Checked, Split, Pow, PhraseBits;
    var ws := Split(b.nfkd(mnemonic));
    var indices := Indices(b.words, ws);
    PhraseBitsOfChecked(b, Ungroup(11, indices), |ws| / 3);
    GroupUngroup(11, indices);
  }

  /** Accepted phrases are exactly the spellings of encoded entropies. */
  lemma AcceptedIffEncoded(b: Bip39, mnemonic: string)
    requires Standard(b)
    ensures Recovered(b, mnemonic).Ok? <==>
      exists entropy: seq<byte> :: |entropy| in ENTROPY_SIZES && PhraseWords(b, entropy) == Split(b.nfkd(mnemonic))
  {
    if Recovered(b, mnemonic).Ok? {
      PhraseOfEntropy(b, mnemonic);
    }
    forall entropy: seq<byte> | |entropy| in ENTROPY_SIZES && PhraseWords(b, entropy) == Split(b.nfkd(mnemonic))
      ensures Recovered(b, mnemonic) == Ok(entropy)
    {
      EntropyOfPhrase(b, entropy);
      SameWordsSameEntropy(b, entropy, mnemonic);
    }
  }

  lemma SameWordsSameEntropy(b: Bip39, entropy: seq<byte>, mnemonic: string)
    requires Standard(b) && |entropy| in ENTROPY_SIZES && PhraseWords(b, entropy) == Split(b.nfkd(mnemonic))
    ensures Recovered(b, mnemonic) == Recovered(b, Join(PhraseWords(b, entropy)))
  {
    Powers();
    hide Group, Ungroup, Checksum, Checked, Split, Join, Pow;
    var ws := PhraseWords(b, entropy);
    SplitJoin(ws);
  }

  // ---- the words, bit by bit, from the entropy and its hash alone ----

  /** Bit i of a byte string, the most significant bit of each byte first. */
  function Bit(bytes: seq<byte>, i: nat): nat
    requires i < 8 * |bytes|
  {
    DigitAt(2, bytes[i / 8], 7 - i % 8)
  }

  lemma BitStringAt(bytes: seq<byte>, i: nat)
    requires i < 8 * |bytes|
    ensures BitString(bytes)[i] == Bit(bytes, i)
  {
    Powers();
    hide Ungroup, BitString, DigitAt, Pow;
    UngroupAt(8, bytes, i / 8, i % 8);
    assert Span(8, i / 8) + i % 8 == i;
  }

  /** The entropy's bits, followed by the leading bits of its hash. */
  function PhraseBit(b: Bip39, entropy: seq<byte>, i: nat): nat
    requires i < 8 * |entropy| + 256
  {
    if i < 8 * |entropy| then Bit(entropy, i) else Bit(b.sha256(entropy), i - 8 * |entropy|)
  }

  lemma PhraseBitsAt(b: Bip39, entropy: seq<byte>, i: nat)
    requires i < |PhraseBits(b, entropy)|
    ensures PhraseBits(b, entropy)[i] == PhraseBit(b, entropy, i)
  {
    hide Bit, BitString;
    if i < 8 * |entropy| {
      BitStringAt(entropy, i);
    } else {
      BitStringAt(b.sha256(entropy), i - 8 * |entropy|);
    }
  }

  /** Bit j of the eleven-bit table position n, most significant first. */
  function PositionBit(n: nat, j: nat): nat
    requires j < 11
  {
    DigitAt(2, n, 10 - j)
  }

  /** `w` stands in the table at the position that bits 11k to 11k + 10 of the phrase spell. */
  ghost predicate SpellsBits(b: Bip39, entropy: seq<byte>, w: string, k: nat)
    requires 11 * k + 11 <= 8 * |entropy| + 256
  {
    exists n :: 0 <= n < |b.words| && b.words[n] == w &&
      forall j :: 0 <= j < 11 ==> PositionBit(n, j) == PhraseBit(b, entropy, 11 * k + j)
  }

  lemma GroupBit(b: Bip39, entropy: seq<byte>, ns: seq<nat>, k: nat, j: nat)
    requires (Powers(); IsNumeral(2048, ns)) && Ungroup(11, ns) == PhraseBits(b, entropy) && k < |ns| && j < 11
    ensures 11 * k + j < 8 * |entropy| + 256 && PositionBit(ns[k], j) == PhraseBit(b, entropy, 11 * k + j)
  {
    Powers();
    hide Ungroup, PhraseBits, PhraseBit, DigitAt, Pow;
    UngroupAt(11, ns, k, j);
    PhraseBitsAt(b, entropy, 11 * k + j);
  }

  lemma PhraseSpelledOut(b: Bip39, entropy: seq<byte>)
    requires Standard(b) && |entropy| in ENTROPY_SIZES
    ensures |PhraseWords(b, entropy)| == |entropy| * 3 / 4
    ensures forall k :: 0 <= k < |entropy| * 3 / 4 ==> SpellsBits(b, entropy, PhraseWords(b, entropy)[k], k)
  {
    Powers();
    PhraseLength(b, entropy);
    PhraseSize(b, entropy);
    var ns := Group(11, PhraseBits(b, entropy));
    UngroupGroup(11, PhraseBits(b, entropy), |entropy| * 3 / 4);
    hide Group, Ungroup, Pow, PhraseBits, PhraseBit, PositionBit;
    forall k | 0 <= k < |ns| ensures SpellsBits(b, entropy, b.words[ns[k]], k) {
      forall j | 0 <= j < 11 ensures PositionBit(ns[k], j) == PhraseBit(b, entropy, 11 * k + j) {
        GroupBit(b, entropy, ns, k, j);
      }
    }
  }

  /** The words of an accepted phrase spell the recovered entropy and the lead of its hash. */
  lemma AcceptedSpelledOut(b: Bip39, mnemonic: string)
    requires Standard(b) && Recovered(b, mnemonic).Ok?
    ensures
      var ws, entropy := Split(b.nfkd(mnemonic)), Recovered(b, mnemonic).value;
      && |entropy| in ENTROPY_SIZES && |ws| == |entropy| * 3 / 4
      && forall k :: 0 <= k < |ws| ==> SpellsBits(b, entropy, ws[k], k)
  {
    hide PhraseWords, Recovered, SpellsBits;
    PhraseOfEntropy(b, mnemonic);
    PhraseSpelledOut(b, Recovered(b, mnemonic).value);
  }

  // ---- what is refused, and why ----

  lemma StandardSizes(n: nat)
    ensures n in ENTROPY_SIZES <==> 16 <= n <= 32 && n % 4 == 0
    ensures n in WORD_COUNTS <==> 12 <= n <= 24 && n % 3 == 0
  {
  }

  ghost predicate IsFirstUnknown(b: Bip39, ws: seq<string>, i: nat)
    requires i < |ws|
  {
    ws[i] !in b.words && forall j :: 0 <= j < i ==> ws[j] in b.words
  }

  lemma {:induction false} FirstUnknownIs(words: seq<string>, ws: seq<string>, i: nat)
    requires i < |ws| && ws[i] !in words && forall j :: 0 <= j < i ==> ws[j] in words
    ensures FirstUnknown(words, ws) == Some(ws[i])
  {
    FirstUnknownStays(words, ws, i);
  }

  /**
   Why a phrase is refused: a wrong number of words; else its first word outside the table;
   else words that spell no entropy with its checksum.
   */
  lemma RefusedExactly(b: Bip39, mnemonic: string)
    requires Standard(b)
    ensures
      var ws, r := Split(b.nfkd(mnemonic)), Recovered(b, mnemonic);
      && (r == Err(InvalidWordCount) <==> |ws| !in WORD_COUNTS)
      && (forall i :: 0 <= i < |ws| && |ws| in WORD_COUNTS && IsFirstUnknown(b, ws, i) ==>
        r == Err(UnknownWord(ws[i])))
      && (r == Err(InvalidChecksum) <==>
        && |ws| in WORD_COUNTS && FromTable(b, ws)
        && forall entropy: seq<byte> :: |entropy| in ENTROPY_SIZES ==> PhraseWords(b, entropy) != ws)
  {
    var ws := Split(b.nfkd(mnemonic));
    hide Checked, PhraseWords, Split;
    AcceptedIffEncoded(b, mnemonic);
    forall i | 0 <= i < |ws| && |ws| in WORD_COUNTS && IsFirstUnknown(b, ws, i)
      ensures Recovered(b, mnemonic) == Err(UnknownWord(ws[i]))
    {
      FirstUnknownIs(b.words, ws, i);
    }
    CheckedRefusal(b, mnemonic);
  }

  lemma CheckedRefusal(b: Bip39, mnemonic: string)
    requires |b.words| == 2048
    ensures
      var ws := Split(b.nfkd(mnemonic));
      |ws| in WORD_COUNTS && FromTable(b, ws) <==>
        Recovered(b, mnemonic).Ok? || Recovered(b, mnemonic) == Err(InvalidChecksum)
  {
    hide Split, Group, Checksum;
  }

  // ---- spacing ----

  /** No space at either end, and no two in a row. */
  predicate SingleSpaced(text: string) {
    forall i :: 0 <= i < |text| && text[i] == ' ' ==> 0 < i < |text| - 1 && text[i + 1] != ' '
  }

  lemma {:induction false} SplitGivesWords(text: string, word: string)
    requires forall i :: 0 <= i < |word| ==> word[i] != ' '
    ensures AllWords(SplitFrom(text, word))
    decreases |text|
  {
    if text != "" {
      if text[0] == ' ' { SplitGivesWords(text[1..], ""); }
      else { SplitGivesWords(text[1..], word + [text[0]]); }
    }
  }

  lemma {:induction false} JoinIsSingleSpaced(ws: seq<string>)
    requires AllWords(ws)
    ensures SingleSpaced(Join(ws)) && (ws != [] ==> Join(ws) != "" && Join(ws)[0] != ' ')
  {
    if |ws| > 1 {
      var w, rest := ws[0], Join(ws[1..]);
      JoinIsSingleSpaced(ws[1..]);
      forall i | 0 <= i < |Join(ws)| && Join(ws)[i] == ' '
        ensures 0 < i < |Join(ws)| - 1 && Join(ws)[i + 1] != ' '
      {
        assert i > |w| ==> rest[i - |w| - 1] == ' ';
      }
    }
  }

  lemma AfterSpace(word: string, text: string)
    requires text != "" && text[0] == ' ' && SingleSpaced(word + text)
    ensures word != "" && text[1..] != "" && SingleSpaced(text[1..])
  {
    var all := word + text;
    assert all[|word|] == ' ';
    assert |text| > 1 && text[1] == all[|word| + 1];
    forall i | 0 <= i < |text| - 1 && text[1..][i] == ' '
      ensures 0 < i < |text| - 2 && text[1..][i + 1] != ' '
    {
      assert all[|word| + 1 + i] == ' ';
      assert text[i + 2] == all[|word| + 2 + i];
    }
  }

  lemma JoinPrepend(w: string, ws: seq<string>)
    requires ws != []
    ensures Join([w] + ws) == w + " " + Join(ws)
  {
    assert ([w] + ws)[1..] == ws;
  }

  lemma {:induction false} JoinOfSplit(text: string, word: string)
    requires forall i :: 0 <= i < |word| ==> word[i] != ' '
    requires SingleSpaced(word + text)
    ensures Join(SplitFrom(text, word)) == word + text
    ensures word + text != "" ==> SplitFrom(text, word) != []
    decreases |text|
  {
    if text == "" {
      assert word + text == word;
    } else if text[0] == ' ' {
      AfterSpace(word, text);
      hide SingleSpaced, Join;
      assert "" + text[1..] == text[1..];
      JoinOfSplit(text[1..], "");
      JoinPrepend(word, SplitFrom(text[1..], ""));
      assert word + " " + text[1..] == word + text;
    } else {
      hide SingleSpaced, Join;
      assert word + [text[0]] + text[1..] == word + text;
      JoinOfSplit(text[1..], word + [text[0]]);
    }
  }

  /** The text `seed` hashes (line 100). */
  function SeedText(b: Bip39, mnemonic: string): string {
    b.nfkd(mnemonic)
  }

  /**
   Exactly which accepted spellings derive their seed from the canonical phrase: those that
   normalise to single-spaced text.
   */
  lemma CanonicalSeedTextIff(b: Bip39, mnemonic: string)
    requires Standard(b) && Recovered(b, mnemonic).Ok?
    ensures
      var phrase := Join(PhraseWords(b, Recovered(b, mnemonic).value));
      SeedText(b, mnemonic) == SeedText(b, phrase) <==> SingleSpaced(b.nfkd(mnemonic))
  {
    hide Recovered, PhraseWords;
    var text, ws := b.nfkd(mnemonic), PhraseWords(b, Recovered(b, mnemonic).value);
    PhraseOfEntropy(b, mnemonic);
    PhraseFromTable(b, Recovered(b, mnemonic).value);
    SplitGivesWords(text, "");
    JoinIsSingleSpaced(ws);
    if SingleSpaced(text) {
      assert "" + text == text;
      JoinOfSplit(text, "");
    }
  }

  lemma PhraseFromTable(b: Bip39, entropy: seq<byte>)
    requires |b.words| == 2048
    ensures FromTable(b, PhraseWords(b, entropy))
  {
  }

  lemma {:induction false} SplitSpaces(x: string, y: string, word: string)
    ensures SplitFrom(x + "  " + y, word) == SplitFrom(x + " " + y, word)
    decreases |x|
  {
    if x == "" {
      assert x + "  " + y == "  " + y && x + " " + y == " " + y;
      assert ("  " + y)[1..] == " " + y && (" " + y)[1..] == y;
      assert SplitFrom(" " + y, "") == Piece("") + SplitFrom(y, "");
    } else {
      assert (x + "  " + y)[1..] == x[1..] + "  " + y;
      assert (x + " " + y)[1..] == x[1..] + " " + y;
      SplitSpaces(x[1..], y, "");
      SplitSpaces(x[1..], y, word + [x[0]]);
    }
  }

  predicate IsAscii(text: string) {
    forall i :: 0 <= i < |text| ==> text[i] as int < 128
  }

  /** As with the English table: ASCII words, and a normalisation that leaves ASCII text alone. */
  ghost predicate AsciiTable(b: Bip39) {
    && (forall i :: 0 <= i < |b.words| ==> IsAscii(b.words[i]))
    && (forall text :: IsAscii(text) ==> b.nfkd(text) == text)
  }

  lemma {:induction false} JoinIsAscii(ws: seq<string>)
    requires forall i :: 0 <= i < |ws| ==> IsAscii(ws[i])
    ensures IsAscii(Join(ws))
  {
    if |ws| > 1 { JoinIsAscii(ws[1..]); }
  }

  /** Doubling any space of a phrase: the same entropy, another seed text. */
  lemma DoubledSpaceChangesSeedText(b: Bip39, entropy: seq<byte>, x: string, y: string)
    requires Standard(b) && AsciiTable(b) && |entropy| in ENTROPY_SIZES
    requires Join(PhraseWords(b, entropy)) == x + " " + y
    ensures Recovered(b, x + "  " + y) == Ok(entropy)
    ensures SeedText(b, x + "  " + y) != SeedText(b, x + " " + y)
  {
    hide PhraseWords, Checked, FirstUnknown;
    PhraseFromTable(b, entropy);
    JoinIsAscii(PhraseWords(b, entropy));
    DoubledIsAscii(x, y);
    EntropyOfPhrase(b, entropy);
    SplitSpaces(x, y, "");
    assert |x + "  " + y| == |x + " " + y| + 1;
  }

  lemma DoubledIsAscii(x: string, y: string)
    requires IsAscii(x + " " + y)
    ensures IsAscii(x + "  " + y)
  {
    var single, double := x + " " + y, x + "  " + y;
    forall i | 0 <= i < |double| ensures double[i] as int < 128 {
      assert double[i] == if i <= |x| then single[i] else single[i - 1];
    }
  }

  /** So every standard entropy has an accepted spelling with another seed text. */
  lemma SpellingChangesSeedText(b: Bip39, entropy: seq<byte>) returns (m: string)
    requires Standard(b) && AsciiTable(b) && |entropy| in ENTROPY_SIZES
    ensures Recovered(b, m) == Ok(entropy)
    ensures SeedText(b, m) != SeedText(b, Join(PhraseWords(b, entropy)))
  {
    PhraseLength(b, entropy);
    hide *;
    var ws := PhraseWords(b, entropy);
    var x, y := ws[0], Join(ws[1..]);
    m := x + "  " + y;
    assert ws == [x] + ws[1..];
    JoinPrepend(x, ws[1..]);
    DoubledSpaceChangesSeedText(b, entropy, x, y);
  }
}
