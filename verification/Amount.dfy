/**
 An amount from the SDK to the instruction bytes: decimal text
 (packages/xend/lib/src/backend_client.dart:50), `u128` parsing
 (backend/src/handlers/tx.rs:50-53), the `u64` check and the little-endian layouts
 (backend/src/chain/solana.rs:104-121, 445-456, 495-517).
 */
module Amount {
  import opened Numerals
  import opened Wrappers
  import Units

  const MAX_U64: nat := 0xffff_ffff_ffff_ffff
  const MAX_U128: nat := 0xffff_ffff_ffff_ffff_ffff_ffff_ffff_ffff

  datatype Error = InvalidAmount | NotAnInteger | AboveMaximum

  /** The chain's own asset, or a token with its mint's decimals. */
  datatype Asset = Native | Token(decimals: byte)

  /** `send` refuses what is not positive and prints the rest. */
  function SdkText(amount: int): Result<string, Error> {
    if amount <= 0 then Err(InvalidAmount) else Ok(Units.ToString(amount))
  }

  /** `str::parse::<u128>`: an optional plus sign and at least one digit, without overflow. */
  function ParseU128(text: string): Option<nat> {
    var digits := if text != "" && text[0] == '+' then text[1..] else text;
    if digits == "" || !Units.AllDigits(digits) then None
    else if Units.Number(digits) > MAX_U128 then None
    else Some(Units.Number(digits))
  }

  function LeBytes(width: nat, n: nat): (bytes: seq<byte>)
    ensures |bytes| == width
  {
    if width == 0 then [] else [n % 256] + LeBytes(width - 1, n / 256)
  }

  function LeValue(bytes: seq<byte>): nat {
    if bytes == [] then 0 else bytes[0] + 256 * LeValue(bytes[1..])
  }

  lemma {:induction false} LeRoundTrip(width: nat, n: nat)
    requires n < Pow(256, width)
    ensures LeValue(LeBytes(width, n)) == n
  {
    if width > 0 {
      LeRoundTrip(width - 1, n / 256);
    }
  }

  /** Byte i weighs 256^i. */
  lemma {:induction false} LeByteAt(width: nat, n: nat, i: nat)
    requires i < width
    ensures LeBytes(width, n)[i] == DigitAt(256, n, i)
  {
    DigitShift(256, n, i);
    if i > 0 { LeByteAt(width - 1, n / 256, i - 1); }
  }

  method SystemTransfer(amount: nat) returns (r: Result<seq<byte>, Error>)
    ensures r == if amount <= MAX_U64 then Ok(LeBytes(4, 2) + LeBytes(8, amount)) else Err(AboveMaximum)
  {
    if amount > MAX_U64 {
      return Err(AboveMaximum);
    }
    var data: seq<byte> := [];
    var discriminant := LeBytes(4, 2);
    data := data + discriminant;
    assert data == discriminant;
    data := data + LeBytes(8, amount);
    return Ok(data);
  }

  method TokenTransferChecked(amount: nat, decimals: byte) returns (data: seq<byte>)
    requires amount <= MAX_U64
    ensures data == [12] + LeBytes(8, amount) + [decimals]
  {
    data := [];
    data := data + [12];
    data := data + LeBytes(8, amount);
    data := data + [decimals];
  }

  /** The transfer instruction's data for an amount given as text. */
  function BuildData(text: string, asset: Asset): Result<seq<byte>, Error> {
    match ParseU128(text)
    case None => Err(NotAnInteger)
    case Some(amount) =>
      if amount > MAX_U64 then Err(AboveMaximum)
      else match asset
        case Native => Ok(LeBytes(4, 2) + LeBytes(8, amount))
        case Token(decimals) => Ok([12] + LeBytes(8, amount) + [decimals])
  }

  method Build(text: string, asset: Asset) returns (r: Result<seq<byte>, Error>)
    ensures r == BuildData(text, asset)
  {
    var amount := ParseU128(text);
    if amount.None? {
      return Err(NotAnInteger);
    }
    match asset
    case Native =>
      r := SystemTransfer(amount.value);
    case Token(decimals) =>
      if amount.value > MAX_U64 {
        return Err(AboveMaximum);
      }
      var data := TokenTransferChecked(amount.value, decimals);
      r := Ok(data);
  }

  /** What the chain's programs read: discriminant, u64, and a token's decimals. */
  function ReadAmount(asset: Asset, data: seq<byte>): Option<nat> {
    match asset
    case Native => if |data| == 12 && LeValue(data[..4]) == 2 then Some(LeValue(data[4..])) else None
    case Token(decimals) =>
      if |data| == 10 && data[0] == 12 && data[9] == decimals then Some(LeValue(data[1..9])) else None
  }

  lemma U64Width()
    ensures Pow(256, 8) == MAX_U64 + 1 && Pow(256, 4) == 0x1_0000_0000
  {
  }

  lemma U128Width()
    ensures Pow(2, 128) == MAX_U128 + 1
  {
    assert Pow(2, 8) == 0x100;
    hide Pow;
    PowAdd(2, 8, 8);
    assert Pow(2, 16) == 0x1_0000;
    PowAdd(2, 16, 16);
    PowAdd(2, 32, 32);
    assert Pow(2, 64) == MAX_U64 + 1;
    PowAdd(2, 64, 64);
  }

  /** `text` is `digits`, perhaps after a plus sign, and they read n. */
  predicate Writes(text: string, digits: string, n: nat) {
    && digits != "" && Units.AllDigits(digits) && Units.Number(digits) == n
    && (text == digits || text == "+" + digits)
  }

  /** An amount text is accepted exactly when it is digits, perhaps after a plus sign, below 2^128. */
  lemma ParsesU128Exactly(text: string, n: nat)
    ensures ParseU128(text) == Some(n) <==> n < Pow(2, 128) && exists digits :: Writes(text, digits, n)
  {
    U128Width();
    hide Units.Number, Pow;
    var digits := if text != "" && text[0] == '+' then text[1..] else text;
    forall other | Writes(text, other, n) ensures other == digits {
      assert !Units.IsDigit('+') && other[0] != '+';
      if text == "+" + other { assert text[1..] == other; }
    }
    if digits != "" && Units.AllDigits(digits) {
      assert text != "" && text[0] == '+' ==> text == "+" + text[1..];
      assert Writes(text, digits, Units.Number(digits));
    }
  }

  /** The bytes of a built transfer, one by one. */
  lemma InstructionBytes(text: string, asset: Asset, i: nat)
    requires BuildData(text, asset).Ok? && i < 8
    ensures
      var data, amount := BuildData(text, asset).value, ParseU128(text).value;
      match asset
      case Native => |data| == 12 && data[..4] == [2, 0, 0, 0] && data[4 + i] == DigitAt(256, amount, i)
      case Token(decimals) =>
        |data| == 10 && data[0] == 12 && data[1 + i] == DigitAt(256, amount, i) && data[9] == decimals
  {
    var amount := ParseU128(text).value;
    LeByteAt(8, amount, i);
    DiscriminantBytes();
    hide DigitAt, ParseU128, LeBytes;
    match asset
    case Native =>
      assert (LeBytes(4, 2) + LeBytes(8, amount))[4 + i] == LeBytes(8, amount)[i];
    case Token(decimals) =>
      assert ([12] + LeBytes(8, amount) + [decimals])[1 + i] == LeBytes(8, amount)[i];
  }

  lemma DiscriminantBytes()
    ensures LeBytes(4, 2) == [2, 0, 0, 0]
  {
  }

  /** A build succeeds exactly on texts of a u64, and its bytes carry that number. */
  lemma BuildExact(text: string, asset: Asset)
    ensures BuildData(text, asset).Ok? <==> ParseU128(text).Some? && ParseU128(text).value <= MAX_U64
    ensures BuildData(text, asset).Ok? ==> ReadAmount(asset, BuildData(text, asset).value) == ParseU128(text)
  {
    if BuildData(text, asset).Ok? {
      var amount := ParseU128(text).value;
      U64Width();
      LeRoundTrip(8, amount);
      LeRoundTrip(4, 2);
      var data := BuildData(text, asset).value;
      match asset
      case Native => assert data[..4] == LeBytes(4, 2) && data[4..] == LeBytes(8, amount);
      case Token(_) => assert data[1..9] == LeBytes(8, amount);
    }
  }

  lemma ParseOfText(amount: nat)
    ensures ParseU128(Units.ToString(amount)) == if amount <= MAX_U128 then Some(amount) else None
  {
    Units.DecimalNumber(amount);
  }

  /**
   Amount conservation: every positive amount the SDK sends either arrives in the
   instruction unchanged or is refused, and it is refused exactly above 2^64 - 1.
   */
  lemma AmountConserved(amount: int, asset: Asset)
    ensures SdkText(amount).Ok? <==> amount > 0
    ensures amount > 0 ==>
      var built := BuildData(SdkText(amount).value, asset);
      && (built.Ok? <==> amount <= MAX_U64)
      && (built.Ok? ==> ReadAmount(asset, built.value) == Some(amount))
      && (built.Err? ==> built.error == if amount <= MAX_U128 then AboveMaximum else NotAnInteger)
  {
    if amount > 0 {
      ParseOfText(amount);
      BuildExact(SdkText(amount).value, asset);
    }
  }
}
