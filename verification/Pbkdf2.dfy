/**
 PBKDF2 over HMAC-SHA512 (packages/xend/ios/Classes/Mnemonic.swift:144-163) against the
 definition in section 5.2 of RFC 8018, for any pseudorandom function of 64-byte output.
 An arithmetic trap of the source (an overflowing counter, an impossible range or prefix)
 is the result None.
 */
module Pbkdf2 {
  import opened Numerals
  import opened Wrappers

  type Block = s: seq<byte> | |s| == 64 witness seq(64, _ => 0)

  /** Key, message, 64-byte code. */
  type Prf = (seq<byte>, seq<byte>) -> Block

  const LAST_INDEX: nat := 0xFFFF_FFFF

  /** Bit by bit on the lowest `width` bits. */
  function XorBits(width: nat, a: nat, b: nat): (r: nat)
    ensures r < Pow(2, width)
  {
    if width == 0 then 0 else 2 * XorBits(width - 1, a / 2, b / 2) + (a + b) % 2
  }

  function XorByte(a: byte, b: byte): byte {
    assert Pow(2, 8) == 256;
    XorBits(8, a, b)
  }

  function Xor(a: Block, b: Block): Block {
    seq(64, i requires 0 <= i < 64 => XorByte(a[i], b[i]))
  }

  // ---- section 5.2 of RFC 8018 ----

  /** INT(i): four octets, most significant first. */
  function Int(i: nat): (octets: seq<byte>)
    requires i <= LAST_INDEX
    ensures |octets| == 4 && Value(256, octets) == i
  {
    assert Pow(256, 4) == 0x1_0000_0000;
    ValueOfFixed(256, 4, i);
    Fixed(256, 4, i)
  }

  function U(prf: Prf, password: seq<byte>, salt: seq<byte>, c: nat, i: nat): Block
    requires c >= 1 && i <= LAST_INDEX
  {
    if c == 1 then prf(password, salt + Int(i)) else prf(password, U(prf, password, salt, c - 1, i))
  }

  /** U_1 xor ... xor U_c */
  function F(prf: Prf, password: seq<byte>, salt: seq<byte>, c: nat, i: nat): Block
    requires c >= 1 && i <= LAST_INDEX
  {
    if c == 1 then U(prf, password, salt, 1, i)
    else Xor(F(prf, password, salt, c - 1, i), U(prf, password, salt, c, i))
  }

  /** T_1 || ... || T_n */
  function Blocks(prf: Prf, password: seq<byte>, salt: seq<byte>, c: nat, n: nat): (r: seq<byte>)
    requires c >= 1 && n <= LAST_INDEX
    ensures |r| == 64 * n
  {
    if n == 0 then [] else Blocks(prf, password, salt, c, n - 1) + F(prf, password, salt, c, n)
  }

  function BlockCount(length: nat): nat {
    (length + 63) / 64
  }

  function DerivedKey(prf: Prf, password: seq<byte>, salt: seq<byte>, c: nat, length: nat): (r: seq<byte>)
    requires c >= 1 && length <= LAST_INDEX * 64
    ensures |r| == length
  {
    Blocks(prf, password, salt, c, BlockCount(length))[..length]
  }

  // ---- the loops ----

  /** The source traps: the counter is incremented past its last value even when it is done. */
  predicate Traps(iterations: int, length: int) {
    length < 0 || (length > 0 && (iterations < 1 || length > (LAST_INDEX - 1) * 64))
  }

  /** Line 157: `result[i] ^= u[i]` for every index. */
  method XorInto(result: array<byte>, u: Block)
    requires result.Length == 64
    modifies result
    ensures result[..] == Xor(old(result[..]), u)
  {
    ghost var was: Block := result[..];
    for i := 0 to 64
      invariant forall k :: i <= k < 64 ==> result[k] == was[k]
      invariant forall k :: 0 <= k < i ==> result[k] == XorByte(was[k], u[k])
    {
      hide XorByte;
      result[i] := XorByte(result[i], u[i]);
    }
  }

  /** Lines 150 to 158: one block. */
  method DeriveBlock(prf: Prf, password: seq<byte>, salt: seq<byte>, iterations: int, blockIndex: nat)
    returns (r: Block)
    requires iterations >= 1 && blockIndex <= LAST_INDEX
    ensures r == F(prf, password, salt, iterations, blockIndex)
  {
    hide Xor, Int;
    var salted := salt + Int(blockIndex);
    var u := prf(password, salted);
    var result := new byte[64](i requires 0 <= i < 64 => u[i]);
    assert result[..] == u;
    for j := 1 to iterations
      invariant u == U(prf, password, salt, j, blockIndex)
      invariant result[..] == F(prf, password, salt, j, blockIndex)
    {
      u := prf(password, u);
      XorInto(result, u);
    }
    r := result[..];
  }

  method Pbkdf2(prf: Prf, password: seq<byte>, salt: seq<byte>, iterations: int, length: int)
    returns (r: Option<seq<byte>>)
    ensures r == if Traps(iterations, length) then None
                 else if length == 0 then Some([])
                 else Some(DerivedKey(prf, password, salt, iterations, length))
  {
    var output := [];
    var blockIndex := 1;
    while |output| < length
      invariant 1 <= blockIndex <= LAST_INDEX
      invariant blockIndex > 1 ==> iterations >= 1 && |output| - 64 < length
      invariant blockIndex == 1 ==> output == []
      invariant iterations >= 1 ==> output == Blocks(prf, password, salt, iterations, blockIndex - 1)
    {
      if iterations < 1 {
        return None;
      }
      var result := DeriveBlock(prf, password, salt, iterations, blockIndex);
      output := output + result;
      if blockIndex == LAST_INDEX {
        return None;
      }
      blockIndex := blockIndex + 1;
    }
    if length < 0 {
      return None;
    }
    return Some(output[..length]);
  }

  // ---- what the standard's definition gives ----

  lemma {:induction false} BlocksPrefix(prf: Prf, password: seq<byte>, salt: seq<byte>, c: nat, m: nat, n: nat)
    requires c >= 1 && m <= n <= LAST_INDEX
    ensures Blocks(prf, password, salt, c, m) <= Blocks(prf, password, salt, c, n)
  {
    if m < n {
      BlocksPrefix(prf, password, salt, c, m, n - 1);
    }
  }

  /** A shorter key is a prefix of a longer one. */
  lemma ShorterIsPrefix(prf: Prf, password: seq<byte>, salt: seq<byte>, c: nat, short: nat, long: nat)
    requires c >= 1 && short <= long <= LAST_INDEX * 64
    ensures DerivedKey(prf, password, salt, c, short) <= DerivedKey(prf, password, salt, c, long)
  {
    BlocksPrefix(prf, password, salt, c, BlockCount(short), BlockCount(long));
  }

  /** Octets 64(i-1) to 64i of any key long enough are F(P, S, c, i). */
  lemma BlockAt(prf: Prf, password: seq<byte>, salt: seq<byte>, c: nat, length: nat, i: nat)
    requires c >= 1 && length <= LAST_INDEX * 64 && 1 <= i && 64 * i <= length
    ensures DerivedKey(prf, password, salt, c, length)[64 * (i - 1)..64 * i] == F(prf, password, salt, c, i)
  {
    var all := Blocks(prf, password, salt, c, BlockCount(length));
    BlocksPrefix(prf, password, salt, c, i, BlockCount(length));
    assert all[..length][64 * (i - 1)..64 * i] == all[64 * (i - 1)..64 * i];
    assert all[..64 * i] == Blocks(prf, password, salt, c, i);
  }

  /** Every octet is the XOR of that octet over the U-chain of its block. */
  function XorChain(us: seq<Block>, p: nat): byte
    requires us != [] && p < 64
  {
    if |us| == 1 then us[0][p] else XorByte(XorChain(us[..|us| - 1], p), us[|us| - 1][p])
  }

  function Chain(prf: Prf, password: seq<byte>, salt: seq<byte>, c: nat, i: nat): seq<Block>
    requires i <= LAST_INDEX
  {
    seq(c, j requires 0 <= j < c => U(prf, password, salt, j + 1, i))
  }

  lemma {:induction false} BlockIsXorOfChain(prf: Prf, password: seq<byte>, salt: seq<byte>, c: nat, i: nat, p: nat)
    requires c >= 1 && i <= LAST_INDEX && p < 64
    ensures F(prf, password, salt, c, i)[p] == XorChain(Chain(prf, password, salt, c, i), p)
  {
    hide XorByte, U;
    if c > 1 {
      BlockIsXorOfChain(prf, password, salt, c - 1, i, p);
      assert Chain(prf, password, salt, c, i)[..c - 1] == Chain(prf, password, salt, c - 1, i);
    }
  }

  // ---- the key, bit by bit, from the pseudorandom function alone ----

  lemma {:induction false} XorBit(width: nat, a: nat, b: nat, k: nat)
    requires k < width
    ensures DigitAt(2, XorBits(width, a, b), k) == (DigitAt(2, a, k) + DigitAt(2, b, k)) % 2
  {
    if k == 0 {
      LowestXorBit(width, a, b);
    } else {
      XorHalves(width, a, b);
      hide *;
      DigitShift(2, XorBits(width, a, b), k);
      DigitShift(2, a, k);
      DigitShift(2, b, k);
      XorBit(width - 1, a / 2, b / 2, k - 1);
    }
  }

  lemma LowestXorBit(width: nat, a: nat, b: nat)
    requires width > 0
    ensures DigitAt(2, XorBits(width, a, b), 0) == (DigitAt(2, a, 0) + DigitAt(2, b, 0)) % 2
  {
    DivUnique(XorBits(width - 1, a / 2, b / 2), (a + b) % 2, 2);
    Parity(a, b);
    DigitShift(2, XorBits(width, a, b), 0);
    DigitShift(2, a, 0);
    DigitShift(2, b, 0);
  }

  lemma XorHalves(width: nat, a: nat, b: nat)
    requires width > 0
    ensures XorBits(width, a, b) / 2 == XorBits(width - 1, a / 2, b / 2)
  {
    DivUnique(XorBits(width - 1, a / 2, b / 2), (a + b) % 2, 2);
  }

  lemma Parity(a: nat, b: nat)
    ensures (a % 2 + b % 2) % 2 == (a + b) % 2 && (a % 2 + b) % 2 == (a + b) % 2
  {
  }

  lemma IntOctets(i: nat)
    requires i <= LAST_INDEX
    ensures Int(i) == [i / 0x100_0000, i / 0x1_0000 % 256, i / 0x100 % 256, i % 256]
  {
    var octets := Int(i);
    assert Pow(256, 0) == 1 && Pow(256, 1) == 0x100 && Pow(256, 2) == 0x1_0000 && Pow(256, 3) == 0x100_0000;
    ValueDigit(256, octets, 0);
    ValueDigit(256, octets, 1);
    ValueDigit(256, octets, 2);
    ValueDigit(256, octets, 3);
  }

  /** U_1 to U_c of block i: the salt with the index big-endian, then each code of the one before. */
  ghost predicate IsChain(prf: Prf, password: seq<byte>, salt: seq<byte>, c: nat, i: nat, us: seq<Block>)
    requires i <= LAST_INDEX
  {
    && |us| == c >= 1
    && us[0] == prf(password, salt + [i / 0x100_0000, i / 0x1_0000 % 256, i / 0x100 % 256, i % 256])
    && forall j :: 0 < j < c ==> us[j] == prf(password, us[j - 1])
  }

  lemma {:induction false} ChainAt(
      prf: Prf, password: seq<byte>, salt: seq<byte>, c: nat, i: nat, us: seq<Block>, j: nat)
    requires i <= LAST_INDEX && IsChain(prf, password, salt, c, i, us) && j < c
    ensures us[j] == U(prf, password, salt, j + 1, i)
  {
    IntOctets(i);
    if j > 0 { ChainAt(prf, password, salt, c, i, us, j - 1); }
  }

  lemma ChainIsChain(prf: Prf, password: seq<byte>, salt: seq<byte>, c: nat, i: nat)
    requires c >= 1 && i <= LAST_INDEX
    ensures IsChain(prf, password, salt, c, i, Chain(prf, password, salt, c, i))
  {
    IntOctets(i);
  }

  /** How many of the blocks have bit k set in octet p. */
  ghost function SetBits(us: seq<Block>, p: nat, k: nat): nat
    requires p < 64
  {
    if us == [] then 0 else SetBits(us[..|us| - 1], p, k) + DigitAt(2, us[|us| - 1][p], k)
  }

  lemma BitIsBit(n: nat, k: nat)
    ensures DigitAt(2, n, k) % 2 == DigitAt(2, n, k)
  {
    hide Pow;
  }

  lemma {:induction false} XorChainBit(us: seq<Block>, p: nat, k: nat)
    requires us != [] && p < 64 && k < 8
    ensures DigitAt(2, XorChain(us, p), k) == SetBits(us, p, k) % 2
  {
    var front, last := us[..|us| - 1], us[|us| - 1][p];
    hide DigitAt, XorBits;
    if |us| == 1 {
      assert SetBits(front, p, k) == 0;
      BitIsBit(last, k);
    } else {
      XorChainBit(front, p, k);
      XorBit(8, XorChain(front, p), last, k);
      Parity(SetBits(front, p, k), DigitAt(2, last, k));
    }
  }

  lemma OctetAt(prf: Prf, password: seq<byte>, salt: seq<byte>, c: nat, length: nat, i: nat, p: nat)
    requires c >= 1 && length <= LAST_INDEX * 64 && i >= 1 && p < 64 && 64 * (i - 1) + p < length
    ensures i <= LAST_INDEX
    ensures DerivedKey(prf, password, salt, c, length)[64 * (i - 1) + p] == F(prf, password, salt, c, i)[p]
  {
    var n := BlockCount(length);
    BlocksPrefix(prf, password, salt, c, i, n);
    assert Blocks(prf, password, salt, c, n)[64 * (i - 1) + p] == Blocks(prf, password, salt, c, i)[64 * (i - 1) + p];
  }

  /** Bit k of octet p of block i of a key is the parity of that bit over the block's chain. */
  lemma DerivedBit(
      prf: Prf, password: seq<byte>, salt: seq<byte>, c: nat, length: nat, i: nat, us: seq<Block>, p: nat, k: nat)
    requires c >= 1 && length <= LAST_INDEX * 64 && 1 <= i <= LAST_INDEX
    requires IsChain(prf, password, salt, c, i, us) && p < 64 && k < 8 && 64 * (i - 1) + p < length
    ensures DigitAt(2, DerivedKey(prf, password, salt, c, length)[64 * (i - 1) + p], k) == SetBits(us, p, k) % 2
  {
    forall j | 0 <= j < c ensures us[j] == U(prf, password, salt, j + 1, i) {
      ChainAt(prf, password, salt, c, i, us, j);
    }
    hide U, F, DerivedKey, XorChain, SetBits, DigitAt, IsChain;
    assert us == Chain(prf, password, salt, c, i);
    OctetAt(prf, password, salt, c, length, i, p);
    BlockIsXorOfChain(prf, password, salt, c, i, p);
    XorChainBit(us, p, k);
  }

  /**
   RFC 8018 allows keys of up to (2^32 - 1) blocks. The source meets it on all of them but
   those that need the very last block, where its counter overflows.
   */
  lemma TrapsOnLastBlockOnly(iterations: int, length: int)
    requires iterations >= 1 && 1 <= length <= LAST_INDEX * 64
    ensures Traps(iterations, length) <==> BlockCount(length) == LAST_INDEX
  {
  }

  lemma LastBlockExample()
    ensures 274877906817 <= LAST_INDEX * 64 && Traps(2048, 274877906817) && !Traps(2048, 274877906816)
  {
  }

  /** The wallet's own call never traps and takes a single block. */
  lemma SeedIsFirstBlock(prf: Prf, password: seq<byte>, salt: seq<byte>)
    ensures !Traps(2048, 64)
    ensures DerivedKey(prf, password, salt, 2048, 64) == F(prf, password, salt, 2048, 1)
  {
    BlockAt(prf, password, salt, 2048, 64, 1);
  }
}
