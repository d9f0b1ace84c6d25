/**
 Provisioning, recovery and deletion of the on-device wallet
 (packages/xend/ios/Classes/SecureSigner.swift:83-168, 236-300) as a sequence of keychain
 and enclave writes, any of which may be the last one before the process stops or a write
 is refused. The devices of one user share the synchronised recovery seed.
 */
module Vault {
  import opened Numerals
  import opened Wrappers
  import Base58

  type Phrase = string
  type PrivateKey = seq<byte>
  type Address = string

  /** Key derivation (Mnemonic.solanaPrivateKey) and the Ed25519 public key, as functions. */
  datatype Crypto = Crypto(derive: Phrase -> PrivateKey, publicKey: PrivateKey -> seq<byte>)

  function AddressOf(c: Crypto, key: PrivateKey): Address {
    Base58.Encoding(c.publicKey(key))
  }

  function WalletAddress(c: Crypto, phrase: Phrase): Address {
    AddressOf(c, c.derive(phrase))
  }

  /** What an enclave key encrypted; only the same enclave key decrypts it. */
  datatype Cipher<T> = Cipher(enclave: nat, plaintext: T)

  function Unwrap<T>(enclave: Option<nat>, cipher: Option<Cipher<T>>): Option<T> {
    if enclave.Some? && cipher.Some? && cipher.value.enclave == enclave.value
    then Some(cipher.value.plaintext)
    else None
  }

  datatype Local = Local(
    enclave: Option<nat>,
    key: Option<Cipher<PrivateKey>>,
    phrase: Option<Cipher<Phrase>>,
    address: Option<Address>,
    seed: Option<Phrase>)

  /** One device's items and the seed synchronised between devices. */
  datatype Store = Store(local: Local, synced: Option<Phrase>)

  const BLANK := Local(None, None, None, None, None)

  datatype Write =
    | DeleteEnclave | CreateEnclave(id: nat)
    | DeleteKey | AddKey(key: Cipher<PrivateKey>)
    | DeletePhrase | AddPhrase(phrase: Cipher<Phrase>)
    | DeleteAddress | AddAddress(address: Address)
    | DeleteSynced | AddSynced(seed: Phrase)
    | DeleteLocal | AddLocal(local: Phrase)
    | DeleteSeeds

  function Do(s: Store, w: Write): Store {
    match w
    case DeleteEnclave => s.(local := s.local.(enclave := None))
    case CreateEnclave(id) => s.(local := s.local.(enclave := Some(id)))
    case DeleteKey => s.(local := s.local.(key := None))
    case AddKey(key) => s.(local := s.local.(key := Some(key)))
    case DeletePhrase => s.(local := s.local.(phrase := None))
    case AddPhrase(phrase) => s.(local := s.local.(phrase := Some(phrase)))
    case DeleteAddress => s.(local := s.local.(address := None))
    case AddAddress(address) => s.(local := s.local.(address := Some(address)))
    case DeleteSynced => s.(synced := None)
    case AddSynced(seed) => s.(synced := Some(seed))
    case DeleteLocal => s.(local := s.local.(seed := None))
    case AddLocal(seed) => s.(local := s.local.(seed := Some(seed)))
    case DeleteSeeds => s.(local := s.local.(seed := None), synced := None)
  }

  function Perform(s: Store, ws: seq<Write>): Store {
    if ws == [] then s else Do(Perform(s, ws[..|ws| - 1]), ws[|ws| - 1])
  }

  function Prefix(ws: seq<Write>, n: nat): seq<Write> {
    if n < |ws| then ws[..n] else ws
  }

  // ---- the order of the writes ----

  function EstablishWrites(c: Crypto, phrase: Phrase, id: nat): seq<Write> {
    [ DeleteEnclave, CreateEnclave(id),
      DeleteKey, AddKey(Cipher(id, c.derive(phrase))),
      DeletePhrase, AddPhrase(Cipher(id, phrase)),
      DeleteAddress, AddAddress(WalletAddress(c, phrase)) ]
  }

  /** Best effort: the synchronised item, or else a local copy, or else neither. */
  function SeedWrites(seed: Phrase, syncAccepted: bool, localAccepted: bool): seq<Write> {
    [DeleteSynced] + (
      if syncAccepted then [AddSynced(seed)]
      else [DeleteLocal] + if localAccepted then [AddLocal(seed)] else [])
  }

  function ProvisionWrites(c: Crypto, phrase: Phrase, id: nat, syncAccepted: bool, localAccepted: bool): seq<Write> {
    EstablishWrites(c, phrase, id) + SeedWrites(phrase, syncAccepted, localAccepted)
  }

  const DELETE_WRITES := [DeleteKey, DeletePhrase, DeleteAddress, DeleteSeeds, DeleteEnclave]

  /** The synchronised seed when there is one, otherwise the local copy. */
  function RecoverySeed(s: Store): Option<Phrase> {
    if s.synced.Some? then s.synced else s.local.seed
  }

  lemma {:induction false} PerformStep(s: Store, ws: seq<Write>, n: nat)
    requires n < |ws|
    ensures Perform(s, Prefix(ws, 0)) == s
    ensures Perform(s, Prefix(ws, n + 1)) == Do(Perform(s, Prefix(ws, n)), ws[n])
  {
    assert ws[..n + 1][..n] == ws[..n];
    assert n + 1 == |ws| ==> ws[..n + 1] == ws;
  }

  lemma {:induction false} PerformConcat(s: Store, a: seq<Write>, b: seq<Write>)
    ensures Perform(s, a + b) == Perform(Perform(s, a), b)
  {
    if b == [] {
      assert a + b == a;
    } else {
      assert (a + b)[..|a + b| - 1] == a + b[..|b| - 1];
      PerformConcat(s, a, b[..|b| - 1]);
    }
  }

  /** The items after the first n writes of `establish`. */
  ghost function Established(c: Crypto, d: Local, phrase: Phrase, id: nat, n: nat): Local {
    Local(
      if n == 0 then d.enclave else if n == 1 then None else Some(id),
      if n <= 2 then d.key else if n == 3 then None else Some(Cipher(id, c.derive(phrase))),
      if n <= 4 then d.phrase else if n == 5 then None else Some(Cipher(id, phrase)),
      if n <= 6 then d.address else if n == 7 then None else Some(WalletAddress(c, phrase)),
      d.seed)
  }

  lemma {:induction false} EstablishEffect(c: Crypto, s: Store, phrase: Phrase, id: nat, n: nat)
    requires n <= 8
    ensures
      var ws := EstablishWrites(c, phrase, id);
      && (forall m :: n == 8 && m >= 8 ==> Prefix(ws, m) == Prefix(ws, 8))
      && Perform(s, Prefix(ws, n)) == Store(Established(c, s.local, phrase, id, n), s.synced)
  {
    var ws := EstablishWrites(c, phrase, id);
    if n > 0 {
      EstablishEffect(c, s, phrase, id, n - 1);
      PerformStep(s, ws, n - 1);
    } else {
      PerformStep(s, ws, 0);
    }
  }

  // ---- the methods, stopped after `budget` writes ----

  class SecureSigner {
    var enclave: Option<nat>
    var key: Option<Cipher<PrivateKey>>
    var phrase: Option<Cipher<Phrase>>
    var address: Option<Address>
    var seed: Option<Phrase>
    var synced: Option<Phrase>

    function View(): Store
      reads this
    {
      Store(Local(enclave, key, phrase, address, seed), synced)
    }

    /** Lines 135 to 154. The address is returned only when every write was made. */
    method Establish(c: Crypto, mnemonic: Phrase, id: nat, budget: nat) returns (established: Option<Address>)
      modifies this
      ensures View() == Perform(old(View()), Prefix(EstablishWrites(c, mnemonic, id), budget))
      ensures established == if budget >= 8 then Some(WalletAddress(c, mnemonic)) else None
    {
      EstablishEffect(c, View(), mnemonic, id, if budget < 8 then budget else 8);
      hide Perform, EstablishWrites;
      var privateKey := c.derive(mnemonic);
      var newAddress := AddressOf(c, privateKey);
      if budget == 0 { return None; }
      enclave := None;
      if budget == 1 { return None; }
      enclave := Some(id);
      if budget == 2 { return None; }
      key := None;
      if budget == 3 { return None; }
      key := Some(Cipher(id, privateKey));
      if budget == 4 { return None; }
      phrase := None;
      if budget == 5 { return None; }
      phrase := Some(Cipher(id, mnemonic));
      if budget == 6 { return None; }
      address := None;
      if budget == 7 { return None; }
      address := Some(newAddress);
      return Some(newAddress);
    }

    /** Lines 280 to 288: never fails the caller. */
    method StoreRecoverySeed(mnemonic: Phrase, syncAccepted: bool, localAccepted: bool, budget: nat)
      modifies this
      ensures View() == Perform(old(View()), Prefix(SeedWrites(mnemonic, syncAccepted, localAccepted), budget))
    {
      ghost var was, ws := View(), SeedWrites(mnemonic, syncAccepted, localAccepted);
      PerformStep(was, ws, 0);
      if budget == 0 { return; }
      synced := None;
      PerformStep(was, ws, 1);
      if budget == 1 { return; }
      if syncAccepted {
        synced := Some(mnemonic);
        return;
      }
      seed := None;
      if budget == 2 || !localAccepted { return; }
      PerformStep(was, ws, 2);
      seed := Some(mnemonic);
    }

    /** Lines 83 to 108: a generated or a validated phrase is established, then its seed kept. */
    method Provision(c: Crypto, mnemonic: Phrase, id: nat, syncAccepted: bool, localAccepted: bool, budget: nat)
      returns (established: Option<Address>)
      modifies this
      ensures
        var writes := ProvisionWrites(c, mnemonic, id, syncAccepted, localAccepted);
        View() == Perform(old(View()), Prefix(writes, budget))
      ensures established == if budget >= 8 then Some(WalletAddress(c, mnemonic)) else None
    {
      ghost var was := View();
      ghost var first := EstablishWrites(c, mnemonic, id);
      ghost var all := ProvisionWrites(c, mnemonic, id, syncAccepted, localAccepted);
      established := Establish(c, mnemonic, id, budget);
      if established == None {
        assert Prefix(all, budget) == Prefix(first, budget);
        return;
      }
      ghost var rest := SeedWrites(mnemonic, syncAccepted, localAccepted);
      StoreRecoverySeed(mnemonic, syncAccepted, localAccepted, budget - 8);
      assert Prefix(all, budget) == first + Prefix(rest, budget - 8);
      PerformConcat(was, first, Prefix(rest, budget - 8));
    }

    /** Lines 118 to 131: the stored address, or one rebuilt from a recovery seed. */
    method LoadOrRecover(c: Crypto, id: nat, budget: nat) returns (found: Option<(Address, bool)>)
      modifies this
      ensures old(address).Some? ==> View() == old(View()) && found == Some((old(address).value, false))
      ensures old(address).None? ==>
        match RecoverySeed(old(View()))
        case None => View() == old(View()) && found == None
        case Some(s) =>
          && View() == Perform(old(View()), Prefix(EstablishWrites(c, s, id), budget))
          && found == if budget >= 8 then Some((WalletAddress(c, s), true)) else None
    {
      if address.Some? {
        return Some((address.value, false));
      }
      var s := if synced.Some? then synced else seed;
      if s.None? {
        return None;
      }
      var rebuilt := Establish(c, s.value, id, budget);
      return if rebuilt.Some? then Some((rebuilt.value, true)) else None;
    }

    /** Lines 252 to 270. */
    method DeleteWallet()
      modifies this
      ensures View() == Perform(old(View()), DELETE_WRITES)
      ensures View() == Store(BLANK, None)
    {
      ghost var was := View();
      PerformStep(was, DELETE_WRITES, 0);
      key := None;
      PerformStep(was, DELETE_WRITES, 1);
      phrase := None;
      PerformStep(was, DELETE_WRITES, 2);
      address := None;
      PerformStep(was, DELETE_WRITES, 3);
      seed, synced := None, None;
      PerformStep(was, DELETE_WRITES, 4);
      enclave := None;
    }
  }
}
