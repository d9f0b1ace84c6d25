/**
 Crash safety of provisioning over every run of any number of devices: whenever an address
 can be read, the items needed to sign and to reveal the phrase are there and belong to it.
 */
module VaultSafety {
  import opened Wrappers
  import opened Vault
  import Base58

  /** A readable address comes with an enclave key that decrypts its key and its phrase. */
  ghost predicate Consistent(c: Crypto, d: Local) {
    d.address.Some? ==>
      && Unwrap(d.enclave, d.key).Some? && Unwrap(d.enclave, d.phrase).Some?
      && Unwrap(d.enclave, d.key).value == c.derive(Unwrap(d.enclave, d.phrase).value)
      && d.address.value == AddressOf(c, Unwrap(d.enclave, d.key).value)
  }

  // ---- worlds ----

  datatype World = World(devices: map<nat, Local>, synced: Option<Phrase>)

  datatype Event =
    | NewDevice(device: nat)
    | Provision(device: nat, phrase: Phrase, id: nat, syncAccepted: bool, localAccepted: bool, budget: nat)
    | Recover(device: nat, id: nat, budget: nat)
    | Delete(device: nat)

  const EMPTY := World(map[], None)

  /** Provisioning starts only where no address is stored; `loadOrRecover` checks that itself. */
  ghost predicate Enabled(w: World, e: Event) {
    match e
    case NewDevice(d) => d !in w.devices
    case Provision(d, _, _, _, _, _) => d in w.devices && w.devices[d].address.None?
    case Recover(d, _, _) => d in w.devices
    case Delete(d) => d in w.devices
  }

  ghost function WritesOf(c: Crypto, s: Store, e: Event): seq<Write>
    requires !e.NewDevice?
  {
    match e
    case Provision(_, phrase, id, syncAccepted, localAccepted, budget) =>
      Prefix(ProvisionWrites(c, phrase, id, syncAccepted, localAccepted), budget)
    case Recover(_, id, budget) =>
      if s.local.address.Some? || RecoverySeed(s).None? then []
      else Prefix(EstablishWrites(c, RecoverySeed(s).value, id), budget)
    case Delete(_) => DELETE_WRITES
  }

  ghost function Step(c: Crypto, w: World, e: Event): World
    requires Enabled(w, e)
  {
    if e.NewDevice? then w.(devices := w.devices[e.device := BLANK])
    else
      var s := Store(w.devices[e.device], w.synced);
      var t := Perform(s, WritesOf(c, s, e));
      World(w.devices[e.device := t.local], t.synced)
  }

  ghost function Run(c: Crypto, es: seq<Event>): Option<World> {
    if es == [] then Some(EMPTY) else
      match Run(c, es[..|es| - 1])
      case None => None
      case Some(w) => if Enabled(w, es[|es| - 1]) then Some(Step(c, w, es[|es| - 1])) else None
  }

  ghost predicate Inv(c: Crypto, w: World) {
    forall d :: d in w.devices ==> Consistent(c, w.devices[d])
  }

  // ---- one operation ----

  ghost predicate OnlySeeds(ws: seq<Write>, seed: Phrase) {
    forall i :: 0 <= i < |ws| ==> ws[i] in {DeleteSynced, AddSynced(seed), DeleteLocal, AddLocal(seed)}
  }

  /** Each stored seed is gone, as it was, or the new one. */
  ghost predicate SeedsFrom(s: Store, t: Store, seed: Phrase) {
    t.synced in {None, s.synced, Some(seed)} && t.local.seed in {None, s.local.seed, Some(seed)}
  }

  ghost predicate SameButSeed(a: Local, b: Local) {
    a.(seed := None) == b.(seed := None)
  }

  lemma SeedStep(s: Store, t: Store, w: Write, seed: Phrase)
    requires w in {DeleteSynced, AddSynced(seed), DeleteLocal, AddLocal(seed)}
    requires SeedsFrom(s, t, seed) && SameButSeed(s.local, t.local)
    ensures SeedsFrom(s, Do(t, w), seed) && SameButSeed(s.local, Do(t, w).local)
  {
  }

  lemma {:induction false} SeedEffect(s: Store, ws: seq<Write>, seed: Phrase)
    requires OnlySeeds(ws, seed)
    ensures SeedsFrom(s, Perform(s, ws), seed) && SameButSeed(s.local, Perform(s, ws).local)
  {
    hide Do;
    if ws != [] {
      hide SeedsFrom, SameButSeed;
      var front := ws[..|ws| - 1];
      assert OnlySeeds(front, seed);
      SeedEffect(s, front, seed);
      SeedStep(s, Perform(s, front), ws[|ws| - 1], seed);
    }
  }

  /** `establish` keeps the vault consistent wherever it stops, if no address was stored. */
  lemma EstablishKeeps(c: Crypto, s: Store, phrase: Phrase, id: nat, n: nat)
    requires s.local.address.None?
    ensures
      var t := Perform(s, Prefix(EstablishWrites(c, phrase, id), n));
      Consistent(c, t.local) && t.synced == s.synced && t.local.seed == s.local.seed
  {
    var m := if n < 8 then n else 8;
    assert Prefix(EstablishWrites(c, phrase, id), n) == Prefix(EstablishWrites(c, phrase, id), m);
    EstablishEffect(c, s, phrase, id, m);
  }

  lemma SeedAside(c: Crypto, before: Local, after: Local)
    requires Consistent(c, before) && SameButSeed(before, after)
    ensures Consistent(c, after) && after.address == before.address
  {
  }

  /** A completed `establish` leaves the phrase's address readable. */
  lemma EstablishCompletes(c: Crypto, s: Store, phrase: Phrase, id: nat)
    requires s.local.address.None?
    ensures
      var t := Perform(s, EstablishWrites(c, phrase, id));
      && Consistent(c, t.local) && t.local.address == Some(WalletAddress(c, phrase))
      && t.synced == s.synced && t.local.seed == s.local.seed
  {
    assert Prefix(EstablishWrites(c, phrase, id), 8) == EstablishWrites(c, phrase, id);
    EstablishKeeps(c, s, phrase, id, 8);
    EstablishEffect(c, s, phrase, id, 8);
  }

  lemma SeedWritesOnly(phrase: Phrase, syncAccepted: bool, localAccepted: bool, n: nat)
    ensures OnlySeeds(Prefix(SeedWrites(phrase, syncAccepted, localAccepted), n), phrase)
  {
  }

  lemma ProvisionSplits(c: Crypto, phrase: Phrase, id: nat, syncAccepted: bool, localAccepted: bool, n: nat)
    ensures
      var first, rest := EstablishWrites(c, phrase, id), SeedWrites(phrase, syncAccepted, localAccepted);
      Prefix(ProvisionWrites(c, phrase, id, syncAccepted, localAccepted), n) ==
        if n <= 8 then Prefix(first, n) else first + Prefix(rest, n - 8)
  {
    hide SeedWrites;
  }

  /** Past its eighth write, provisioning only touches seeds, under an address already readable. */
  lemma ProvisionStores(
      c: Crypto, s: Store, phrase: Phrase, id: nat, syncAccepted: bool, localAccepted: bool, n: nat)
    requires s.local.address.None? && n > 8
    ensures
      var t := Perform(s, Prefix(ProvisionWrites(c, phrase, id, syncAccepted, localAccepted), n));
      && Consistent(c, t.local) && SeedsFrom(s, t, phrase)
      && t.local.address == Some(WalletAddress(c, phrase))
  {
    hide Consistent, Perform, EstablishWrites, SeedWrites, ProvisionWrites, Prefix, OnlySeeds, SameButSeed, Do;
    var first := EstablishWrites(c, phrase, id);
    var rest := Prefix(SeedWrites(phrase, syncAccepted, localAccepted), n - 8);
    ProvisionSplits(c, phrase, id, syncAccepted, localAccepted, n);
    PerformConcat(s, first, rest);
    EstablishCompletes(c, s, phrase, id);
    SeedWritesOnly(phrase, syncAccepted, localAccepted, n - 8);
    SeedEffect(Perform(s, first), rest, phrase);
    SeedAside(c, Perform(s, first).local, Perform(s, first + rest).local);
  }

  /**
   Provisioning keeps the vault consistent wherever it stops, and no seed is touched before
   the phrase's own address can be read.
   */
  lemma ProvisionKeeps(
      c: Crypto, s: Store, phrase: Phrase, id: nat, syncAccepted: bool, localAccepted: bool, n: nat)
    requires s.local.address.None?
    ensures
      var t := Perform(s, Prefix(ProvisionWrites(c, phrase, id, syncAccepted, localAccepted), n));
      && Consistent(c, t.local) && SeedsFrom(s, t, phrase)
      && (t.synced != s.synced || t.local.seed != s.local.seed ==>
        t.local.address == Some(WalletAddress(c, phrase)))
  {
    hide Consistent, Perform, EstablishWrites, SeedWrites, ProvisionWrites, Prefix;
    if n <= 8 {
      ProvisionSplits(c, phrase, id, syncAccepted, localAccepted, n);
      EstablishKeeps(c, s, phrase, id, n);
    } else {
      ProvisionStores(c, s, phrase, id, syncAccepted, localAccepted, n);
    }
  }

  /** What is left after the first n deletions. */
  ghost function Deleted(s: Store, n: nat): Store {
    Store(
      Local(
        if n < 5 then s.local.enclave else None,
        if n < 1 then s.local.key else None,
        if n < 2 then s.local.phrase else None,
        if n < 3 then s.local.address else None,
        if n < 4 then s.local.seed else None),
      if n < 4 then s.synced else None)
  }

  lemma {:induction false} DeletionEffect(s: Store, n: nat)
    requires n <= 5
    ensures Perform(s, Prefix(DELETE_WRITES, n)) == Deleted(s, n)
  {
    if n == 0 {
      PerformStep(s, DELETE_WRITES, 0);
    } else {
      DeletionEffect(s, n - 1);
      PerformStep(s, DELETE_WRITES, n - 1);
      hide Perform;
      DeletionStep(s, n - 1);
    }
  }

  lemma DeletionStep(s: Store, n: nat)
    requires n < 5
    ensures Do(Deleted(s, n), DELETE_WRITES[n]) == Deleted(s, n + 1)
  {
  }

  lemma DeletionCompletes(s: Store)
    ensures Perform(s, DELETE_WRITES) == Store(BLANK, None)
  {
    DeletionEffect(s, 5);
  }

  /** The store after the first n writes of the seed's storage. */
  ghost function SeedStored(s: Store, phrase: Phrase, syncAccepted: bool, localAccepted: bool, n: nat): Store {
    var synced := if n == 0 then s.synced else if n == 1 || !syncAccepted then None else Some(phrase);
    var seed :=
      if n <= 1 || syncAccepted then s.local.seed else if n == 2 || !localAccepted then None else Some(phrase);
    Store(s.local.(seed := seed), synced)
  }

  lemma SeedStoredStep(s: Store, phrase: Phrase, syncAccepted: bool, localAccepted: bool, n: nat)
    requires n < |SeedWrites(phrase, syncAccepted, localAccepted)|
    ensures
      var write := SeedWrites(phrase, syncAccepted, localAccepted)[n];
      Do(SeedStored(s, phrase, syncAccepted, localAccepted, n), write)
        == SeedStored(s, phrase, syncAccepted, localAccepted, n + 1)
  {
  }

  lemma {:induction false} SeedsStored(s: Store, phrase: Phrase, syncAccepted: bool, localAccepted: bool, n: nat)
    ensures Perform(s, Prefix(SeedWrites(phrase, syncAccepted, localAccepted), n))
      == SeedStored(s, phrase, syncAccepted, localAccepted, n)
  {
    var ws := SeedWrites(phrase, syncAccepted, localAccepted);
    if n == 0 {
      PerformStep(s, ws, 0);
    } else {
      SeedsStored(s, phrase, syncAccepted, localAccepted, n - 1);
      if n <= |ws| {
        PerformStep(s, ws, n - 1);
        SeedStoredStep(s, phrase, syncAccepted, localAccepted, n - 1);
      } else {
        assert Prefix(ws, n) == Prefix(ws, n - 1);
      }
    }
  }

  /**
   A completed provisioning stores the phrase: synchronised and leaving the local copy alone,
   or else locally in place of both, or else nowhere.
   */
  lemma ProvisionStoresSeed(
      c: Crypto, s: Store, phrase: Phrase, id: nat, syncAccepted: bool, localAccepted: bool, n: nat)
    requires s.local.address.None? && n >= (if syncAccepted || !localAccepted then 10 else 11)
    ensures
      var t := Perform(s, Prefix(ProvisionWrites(c, phrase, id, syncAccepted, localAccepted), n));
      && t.local.address == Some(WalletAddress(c, phrase))
      && t.synced == (if syncAccepted then Some(phrase) else None)
      && t.local.seed == (if syncAccepted then s.local.seed else if localAccepted then Some(phrase) else None)
  {
    hide Consistent, Perform, EstablishWrites, SeedWrites, ProvisionWrites, Prefix, Do;
    var first := EstablishWrites(c, phrase, id);
    ProvisionSplits(c, phrase, id, syncAccepted, localAccepted, n);
    PerformConcat(s, first, Prefix(SeedWrites(phrase, syncAccepted, localAccepted), n - 8));
    EstablishCompletes(c, s, phrase, id);
    SeedsStored(Perform(s, first), phrase, syncAccepted, localAccepted, n - 8);
  }

  lemma StepKeepsInv(c: Crypto, w: World, e: Event)
    requires Inv(c, w) && Enabled(w, e)
    ensures Inv(c, Step(c, w, e))
  {
    if !e.NewDevice? {
      var s := Store(w.devices[e.device], w.synced);
      match e
      case Provision(_, phrase, id, syncAccepted, localAccepted, budget) =>
        ProvisionKeeps(c, s, phrase, id, syncAccepted, localAccepted, budget);
      case Recover(_, id, budget) =>
        if s.local.address.None? && RecoverySeed(s).Some? {
          EstablishKeeps(c, s, RecoverySeed(s).value, id, budget);
        }
      case Delete(_) => DeletionCompletes(s);
    }
  }

  lemma {:induction false} RunKeepsInv(c: Crypto, es: seq<Event>)
    requires Run(c, es).Some?
    ensures Inv(c, Run(c, es).value)
  {
    if es != [] {
      RunKeepsInv(c, es[..|es| - 1]);
      StepKeepsInv(c, Run(c, es[..|es| - 1]).value, es[|es| - 1]);
    }
  }

  /**
   In every run, on every device: a readable address can sign and reveal, with the key and
   the phrase it was derived from.
   */
  lemma ReadableAddressIsUsable(c: Crypto, es: seq<Event>, d: nat)
    requires Run(c, es).Some? && d in Run(c, es).value.devices && Run(c, es).value.devices[d].address.Some?
    ensures
      var l := Run(c, es).value.devices[d];
      exists phrase ::
        && Unwrap(l.enclave, l.phrase) == Some(phrase)
        && Unwrap(l.enclave, l.key) == Some(c.derive(phrase))
        && l.address == Some(WalletAddress(c, phrase))
        && Base58.Decoding(l.address.value) == Some(c.publicKey(c.derive(phrase)))
  {
    RunKeepsInv(c, es);
    var l := Run(c, es).value.devices[d];
    hide Base58.Encoding, Base58.Decoding;
    Base58.Bijection(c.publicKey(Unwrap(l.enclave, l.key).value), l.address.value);
    assert Unwrap(l.enclave, l.phrase) == Some(Unwrap(l.enclave, l.phrase).value);
  }

  // ---- where seeds come from ----

  /** The address that can be read on the device of event i right after that event. */
  ghost function ReadableAfter(c: Crypto, es: seq<Event>, i: nat): Option<Address>
    requires i < |es|
  {
    match Run(c, es[..i + 1])
    case None => None
    case Some(w) => if es[i].device in w.devices then w.devices[es[i].device].address else None
  }

  /** Event i provisioned this phrase and left its address readable. */
  ghost predicate EstablishedBy(c: Crypto, es: seq<Event>, i: nat, phrase: Phrase)
    requires i < |es|
  {
    && es[i].Provision? && es[i].phrase == phrase
    && ReadableAfter(c, es, i) == Some(WalletAddress(c, phrase))
  }

  ghost predicate Originates(c: Crypto, es: seq<Event>, phrase: Phrase) {
    exists i :: 0 <= i < |es| && EstablishedBy(c, es, i, phrase)
  }

  /** This very step provisions the phrase and leaves its address readable. */
  ghost predicate Establishing(c: Crypto, w: World, e: Event, phrase: Phrase)
    requires Enabled(w, e)
  {
    && e.Provision? && e.phrase == phrase && e.device in Step(c, w, e).devices
    && Step(c, w, e).devices[e.device].address == Some(WalletAddress(c, phrase))
  }

  /** A step keeps seeds, removes them, or stores the one whose address it leaves readable. */
  lemma StepSeeds(c: Crypto, w: World, e: Event)
    requires Enabled(w, e)
    ensures
      var t := Step(c, w, e);
      && (t.synced.Some? ==> t.synced == w.synced || Establishing(c, w, e, t.synced.value))
      && forall d :: d in t.devices && t.devices[d].seed.Some? ==>
        || (d in w.devices && t.devices[d].seed == w.devices[d].seed)
        || Establishing(c, w, e, t.devices[d].seed.value)
  {
    if !e.NewDevice? {
      var s := Store(w.devices[e.device], w.synced);
      match e
      case Provision(_, phrase, id, syncAccepted, localAccepted, budget) =>
        ProvisionKeeps(c, s, phrase, id, syncAccepted, localAccepted, budget);
      case Recover(_, id, budget) =>
        if s.local.address.None? && RecoverySeed(s).Some? {
          EstablishKeeps(c, s, RecoverySeed(s).value, id, budget);
        }
      case Delete(_) => DeletionCompletes(s);
    }
  }

  lemma OriginKept(c: Crypto, es: seq<Event>, phrase: Phrase)
    requires es != [] && Originates(c, es[..|es| - 1], phrase)
    ensures Originates(c, es, phrase)
  {
    var front := es[..|es| - 1];
    var i :| 0 <= i < |front| && EstablishedBy(c, front, i, phrase);
    assert front[..i + 1] == es[..i + 1];
    assert EstablishedBy(c, es, i, phrase);
  }

  ghost predicate AllOriginate(c: Crypto, es: seq<Event>, w: World) {
    && (w.synced.Some? ==> Originates(c, es, w.synced.value))
    && forall d :: d in w.devices && w.devices[d].seed.Some? ==> Originates(c, es, w.devices[d].seed.value)
  }

  /**
   In every run, every stored recovery seed is the phrase of an earlier provisioning whose
   address could be read once that provisioning ended.
   */
  lemma {:induction false} SeedsOriginate(c: Crypto, es: seq<Event>)
    requires Run(c, es).Some?
    ensures AllOriginate(c, es, Run(c, es).value)
  {
    if es != [] {
      hide Step, Enabled, Originates, Establishing;
      var front, e := es[..|es| - 1], es[|es| - 1];
      var w, t := Run(c, front).value, Run(c, es).value;
      SeedsOriginate(c, front);
      StepSeeds(c, w, e);
      if t.synced.Some? {
        SeedOrigin(c, es, t.synced.value, t.synced == w.synced);
      }
      forall d | d in t.devices && t.devices[d].seed.Some? ensures Originates(c, es, t.devices[d].seed.value) {
        SeedOrigin(c, es, t.devices[d].seed.value, d in w.devices && t.devices[d].seed == w.devices[d].seed);
      }
    }
  }

  lemma SeedOrigin(c: Crypto, es: seq<Event>, phrase: Phrase, kept: bool)
    requires es != [] && Run(c, es).Some?
    requires
      if kept then Originates(c, es[..|es| - 1], phrase)
      else Establishing(c, Run(c, es[..|es| - 1]).value, es[|es| - 1], phrase)
    ensures Originates(c, es, phrase)
  {
    if kept {
      OriginKept(c, es, phrase);
    } else {
      assert es[..|es| - 1 + 1] == es;
      assert EstablishedBy(c, es, |es| - 1, phrase);
    }
  }

  /** A completed recovery re-creates an address that an earlier provisioning had made readable. */
  lemma RecoveredAddressIsOriginal(c: Crypto, es: seq<Event>, d: nat, id: nat, budget: nat)
    requires Run(c, es).Some? && d in Run(c, es).value.devices && budget >= 8
    requires
      var w := Run(c, es).value;
      w.devices[d].address.None? && RecoverySeed(Store(w.devices[d], w.synced)).Some?
    ensures
      var w := Run(c, es).value;
      var seed := RecoverySeed(Store(w.devices[d], w.synced)).value;
      var t := Step(c, w, Recover(d, id, budget));
      && (exists i :: 0 <= i < |es| && EstablishedBy(c, es, i, seed) && t.devices[d].address == ReadableAfter(c, es, i))
      && Unwrap(t.devices[d].enclave, t.devices[d].key) == Some(c.derive(seed))
      && t.synced == w.synced
  {
    var w := Run(c, es).value;
    var s := Store(w.devices[d], w.synced);
    var seed := RecoverySeed(s).value;
    assert Prefix(EstablishWrites(c, seed, id), budget) == Prefix(EstablishWrites(c, seed, id), 8);
    EstablishEffect(c, s, seed, id, 8);
    SeedsOriginate(c, es);
    var i :| 0 <= i < |es| && EstablishedBy(c, es, i, seed);
    var t := Step(c, w, Recover(d, id, budget));
    assert t.devices[d].address == ReadableAfter(c, es, i);
  }

  // ---- and that they arrive ----

  /**
   What recovery does: nothing when an address is stored or there is no seed; otherwise it
   makes readable the address of the synchronised seed, or else of the local one.
   */
  lemma RecoveryRestores(c: Crypto, w: World, d: nat, id: nat, budget: nat)
    requires d in w.devices && budget >= 8
    ensures
      var t := Step(c, w, Recover(d, id, budget));
      && t.synced == w.synced && d in t.devices && t.devices[d].seed == w.devices[d].seed
      && (w.devices[d].address.Some? ==> t == w)
      && (w.devices[d].address.None? ==>
        t.devices[d].address == (
          if w.synced.Some? then Some(WalletAddress(c, w.synced.value))
          else if w.devices[d].seed.Some? then Some(WalletAddress(c, w.devices[d].seed.value))
          else None))
  {
    var s := Store(w.devices[d], w.synced);
    if w.devices[d].address.Some? {
      assert w.devices[d := w.devices[d]] == w.devices;
    } else if RecoverySeed(s).Some? {
      var phrase := RecoverySeed(s).value;
      assert Prefix(EstablishWrites(c, phrase, id), budget) == EstablishWrites(c, phrase, id);
      EstablishCompletes(c, s, phrase, id);
    }
  }

  /** Neither new devices nor recoveries, complete or not, change the synchronised seed. */
  lemma {:induction false} SeedStays(c: Crypto, es: seq<Event>, more: seq<Event>)
    requires Run(c, es + more).Some?
    requires forall i :: 0 <= i < |more| ==> more[i].NewDevice? || more[i].Recover?
    ensures Run(c, es).Some? && Run(c, es + more).value.synced == Run(c, es).value.synced
  {
    if more == [] {
      assert es + more == es;
    } else {
      var front, e := more[..|more| - 1], more[|more| - 1];
      assert (es + more)[..|es + more| - 1] == es + front;
      SeedStays(c, es, front);
      var w := Run(c, es + front).value;
      if e.Recover? && w.devices[e.device].address.None? {
        var s := Store(w.devices[e.device], w.synced);
        if RecoverySeed(s).Some? { EstablishKeeps(c, s, RecoverySeed(s).value, e.id, e.budget); }
      }
    }
  }

  /**
   After a completed, synchronised provisioning, and until the next one or a deletion, any
   device without an address that completes a recovery has the same wallet.
   */
  lemma ProvisionedRecoversElsewhere(
      c: Crypto, es: seq<Event>, more: seq<Event>, d: nat, id: nat, budget: nat)
    requires es != [] && Run(c, es + more).Some? && d in Run(c, es + more).value.devices
    requires forall i :: 0 <= i < |more| ==> more[i].NewDevice? || more[i].Recover?
    requires
      var e := es[|es| - 1];
      e.Provision? && e.syncAccepted && e.budget >= 10
    requires Run(c, es + more).value.devices[d].address.None? && budget >= 8
    ensures
      var t := Step(c, Run(c, es + more).value, Recover(d, id, budget));
      d in t.devices && t.devices[d].address == Some(WalletAddress(c, es[|es| - 1].phrase))
  {
    var Provision(device, phrase, key, syncAccepted, localAccepted, n) := es[|es| - 1];
    SeedStays(c, es, more);
    var w := Run(c, es[..|es| - 1]).value;
    ProvisionStoresSeed(c, Store(w.devices[device], w.synced), phrase, key, syncAccepted, localAccepted, n);
    RecoveryRestores(c, Run(c, es + more).value, d, id, budget);
  }

  // ---- exactly where the hypotheses matter ----

  /**
   Re-provisioning over a stored address keeps the vault consistent exactly when it stops
   before its first write or after the old address is gone (or, at the sixth write, when
   the same wallet is being restored).
   */
  lemma ReprovisionExactly(c: Crypto, s: Store, phrase: Phrase, id: nat, n: nat)
    requires Consistent(c, s.local) && s.local.address.Some? && s.local.enclave != Some(id)
    ensures Consistent(c, Perform(s, Prefix(EstablishWrites(c, phrase, id), n)).local) <==>
      n == 0 || n >= 7 || (n == 6 && s.local.address == Some(WalletAddress(c, phrase)))
  {
    var m := if n < 8 then n else 8;
    assert Prefix(EstablishWrites(c, phrase, id), n) == Prefix(EstablishWrites(c, phrase, id), m);
    EstablishEffect(c, s, phrase, id, m);
  }

  /** Deletion stopped early leaves a consistent vault exactly when the address went too. */
  lemma DeletionExactly(c: Crypto, s: Store, n: nat)
    requires Consistent(c, s.local) && s.local.address.Some?
    ensures Consistent(c, Perform(s, Prefix(DELETE_WRITES, n)).local) <==> n == 0 || n >= 3
  {
    var m := if n < 5 then n else 5;
    assert Prefix(DELETE_WRITES, n) == Prefix(DELETE_WRITES, m);
    DeletionEffect(s, m);
    hide Perform, Prefix;
  }
}
