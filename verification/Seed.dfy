/**
 The seed of a recovery phrase (packages/xend/ios/Classes/Mnemonic.swift:99-103): 64 octets
 of PBKDF2 over the normalised phrase, salted with "mnemonic" and the passphrase.
 */
module Seed {
  import opened Numerals
  import opened Wrappers
  import opened Pbkdf2
  import opened Mnemonic

  type Utf8 = string -> seq<byte>

  /**
   Every bit of the seed is the parity of that bit over the 2048 codes that start from the
   salt and the index 0, 0, 0, 1.
   */
  ghost predicate IsSeed(prf: Prf, password: seq<byte>, salt: seq<byte>, seed: seq<byte>) {
    && |seed| == 64
    && forall us, p: nat, k: nat :: IsSeedChain(prf, password, salt, us) && p < 64 && k < 8 ==>
      DigitAt(2, seed[p], k) == SetBits(us, p, k) % 2
  }

  ghost predicate IsSeedChain(prf: Prf, password: seq<byte>, salt: seq<byte>, us: seq<Block>) {
    && |us| == 2048
    && us[0] == prf(password, salt + [0, 0, 0, 1])
    && forall j :: 0 < j < 2048 ==> us[j] == prf(password, us[j - 1])
  }

  lemma SeedChainExists(prf: Prf, password: seq<byte>, salt: seq<byte>)
    ensures exists us :: IsSeedChain(prf, password, salt, us)
  {
    ChainIsChain(prf, password, salt, 2048, 1);
    assert IsSeedChain(prf, password, salt, Chain(prf, password, salt, 2048, 1));
  }

  lemma FirstBlockIsSeed(prf: Prf, password: seq<byte>, salt: seq<byte>)
    ensures IsSeed(prf, password, salt, DerivedKey(prf, password, salt, 2048, 64))
  {
    var seed := DerivedKey(prf, password, salt, 2048, 64);
    forall us, p: nat, k: nat | IsSeedChain(prf, password, salt, us) && p < 64 && k < 8
      ensures DigitAt(2, seed[p], k) == SetBits(us, p, k) % 2
    {
      assert IsChain(prf, password, salt, 2048, 1, us);
      DerivedBit(prf, password, salt, 2048, 64, 1, us, p, k);
    }
  }

  method SeedFrom(b: Bip39, utf8: Utf8, prf: Prf, mnemonic: string, passphrase: string) returns (seed: seq<byte>)
    ensures IsSeed(prf, utf8(b.nfkd(mnemonic)), utf8("mnemonic" + b.nfkd(passphrase)), seed)
  {
    var password := utf8(SeedText(b, mnemonic));
    var salt := utf8("mnemonic" + b.nfkd(passphrase));
    var derived := Pbkdf2.Pbkdf2(prf, password, salt, 2048, 64);
    FirstBlockIsSeed(prf, password, salt);
    return derived.value;
  }
}
