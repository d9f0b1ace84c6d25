/**
 Idempotent submission (backend/src/handlers/tx.rs:111-154) as a state machine. Any number
 of handlers run at once against one ledger and one network; every SQL statement, the
 validation and the broadcast is one atomic step, a handler may stop for ever between any
 two, a statement may commit and still report failure, and a relayed transaction may
 execute at any later moment or never.
 */
module Submit {
  import opened Numerals
  import opened Wrappers
  import opened Transactions

  type Bytes = seq<byte>

  /** The chain, as far as `submit` depends on it: which bytes verify, and their signature. */
  datatype Chain = Chain(verifies: Bytes -> bool, signatureOf: Bytes -> Signature)

  /** `signed` is None when the payload is not base64. */
  datatype Request = Request(signed: Option<Bytes>, key: Key, details: Details)

  datatype Error = BadRequest | Database | Network

  datatype Response = Accepted(signature: Signature, status: Status) | Failed(error: Error)

  /** What a handler does next. */
  datatype Stage =
    | Received                          // look the key up
    | Unclaimed                         // insert the pending row
    | Claimed                           // validate the bytes
    | Verified                          // broadcast them
    | Broadcasted(signature: Signature) // record the signature
    | Replied(response: Response)
    | Crashed

  datatype Handler = Handler(request: Request, stage: Stage)

  datatype System = System(
    ledger: Ledger,
    handlers: map<nat, Handler>,
    relayed: set<Bytes>,     // handed to the network by some broadcast
    executed: seq<Bytes>)    // executed on chain, in order

  const INITIAL := System(map[], map[], {}, [])

  datatype Event =
    | Receive(id: nat, request: Request)
    | Lookup(id: nat, fails: bool)
    | Insert(id: nat, wallet: Option<WalletId>, now: int, outcome: Outcome)
    | Validate(id: nat)
    | Broadcast(id: nat, reaches: bool, acknowledged: bool)
    | Mark(id: nat, outcome: Outcome)
    | Crash(id: nat)
    | Execute(signed: Bytes)

  ghost predicate At(s: System, id: nat, stage: Stage) {
    id in s.handlers && s.handlers[id].stage == stage && s.handlers[id].request.signed.Some?
  }

  /** The chain executes one transaction per signature. */
  ghost predicate Unexecuted(c: Chain, s: System, signed: Bytes) {
    forall i :: 0 <= i < |s.executed| ==> c.signatureOf(s.executed[i]) != c.signatureOf(signed)
  }

  ghost predicate Enabled(c: Chain, s: System, e: Event) {
    match e
    case Receive(id, _) => id !in s.handlers
    case Lookup(id, _) => At(s, id, Received)
    case Insert(id, _, _, _) => At(s, id, Unclaimed)
    case Validate(id) => At(s, id, Claimed)
    case Broadcast(id, reaches, acknowledged) => At(s, id, Verified) && (acknowledged ==> reaches)
    case Mark(id, _) => id in s.handlers && s.handlers[id].stage.Broadcasted?
    case Crash(id) => id in s.handlers && !s.handlers[id].stage.Replied?
    case Execute(signed) => signed in s.relayed && Unexecuted(c, s, signed)
  }

  ghost function Goto(s: System, id: nat, stage: Stage): System
    requires id in s.handlers
  {
    s.(handlers := s.handlers[id := s.handlers[id].(stage := stage)])
  }

  ghost function Step(c: Chain, s: System, e: Event): System
    requires Enabled(c, s, e)
  {
    match e
    case Receive(id, request) =>
      var stage := if request.signed == None then Replied(Failed(BadRequest)) else Received;
      s.(handlers := s.handlers[id := Handler(request, stage)])
    case Lookup(id, fails) =>
      if fails then Goto(s, id, Replied(Failed(Database))) else (
        match Find(s.ledger, s.handlers[id].request.key)
        case None => Goto(s, id, Unclaimed)
        case Some(Existing(None, _)) => Goto(s, id, Claimed)
        case Some(Existing(Some(signature), status)) => Goto(s, id, Replied(Accepted(signature, status)))
      )
    case Insert(id, wallet, now, outcome) =>
      var r := s.handlers[id].request;
      var s' := if outcome == Lost then s
                else s.(ledger := Claim(s.ledger, wallet, r.key, r.details, now));
      Goto(s', id, if outcome == Done then Claimed else Replied(Failed(Database)))
    case Validate(id) =>
      Goto(s, id, if c.verifies(s.handlers[id].request.signed.value) then Verified else Replied(Failed(BadRequest)))
    case Broadcast(id, reaches, acknowledged) =>
      var signed := s.handlers[id].request.signed.value;
      var s' := if reaches then s.(relayed := s.relayed + {signed}) else s;
      Goto(s', id, if acknowledged then Broadcasted(c.signatureOf(signed)) else Replied(Failed(Network)))
    case Mark(id, outcome) =>
      var key, signature := s.handlers[id].request.key, s.handlers[id].stage.signature;
      var refused := MarkRefused(s.ledger, key, signature);
      var s' := if outcome == Lost || refused then s
                else s.(ledger := Recorded(s.ledger, key, signature));
      Goto(s', id, Replied(if outcome == Done && !refused then Accepted(signature, Submitted) else Failed(Database)))
    case Crash(id) => Goto(s, id, Crashed)
    case Execute(signed) => s.(executed := s.executed + [signed])
  }

  /** The state after the events, or None when one of them was not possible. */
  ghost function Run(c: Chain, s: System, es: seq<Event>): Option<System>
    decreases |es|
  {
    if es == [] then Some(s)
    else if Enabled(c, s, es[0]) then Run(c, Step(c, s, es[0]), es[1..])
    else None
  }

  ghost predicate Reachable(c: Chain, s: System) {
    exists es :: Run(c, INITIAL, es) == Some(s)
  }

  lemma {:induction false} RunConcat(c: Chain, s: System, a: seq<Event>, b: seq<Event>)
    requires Run(c, s, a).Some?
    ensures Run(c, s, a + b) == Run(c, Run(c, s, a).value, b)
    decreases |a|
  {
    if a == [] {
      assert a + b == b;
    } else {
      assert (a + b)[1..] == a[1..] + b;
      RunConcat(c, Step(c, s, a[0]), a[1..], b);
    }
  }

  // ---- what every step keeps ----

  /** Some request for the key carried relayed bytes with this signature. */
  ghost predicate Evidence(c: Chain, s: System, key: Key, signature: Signature) {
    exists id :: id in s.handlers && EvidenceFrom(c, s, id, key, signature)
  }

  ghost predicate EvidenceFrom(c: Chain, s: System, id: nat, key: Key, signature: Signature)
    requires id in s.handlers
  {
    var r := s.handlers[id].request;
    r.key == key && r.signed.Some? && r.signed.value in s.relayed && c.signatureOf(r.signed.value) == signature
  }

  /** The row's recipient, amount and mint are those of a request for its key. */
  ghost predicate ClaimedBy(s: System, key: Key, details: Details) {
    exists id :: id in s.handlers && s.handlers[id].request.key == key && s.handlers[id].request.details == details
  }

  ghost predicate RowInv(c: Chain, s: System, key: Key)
    requires key in s.ledger
  {
    var row := s.ledger[key];
    && ClaimedBy(s, key, row.details)
    && (row.signature.Some? <==> row.status == Submitted)
    && (row.signature.Some? ==> Evidence(c, s, key, row.signature.value))
  }

  ghost predicate HandlerInv(c: Chain, s: System, id: nat)
    requires id in s.handlers
  {
    var Handler(r, stage) := s.handlers[id];
    && (stage.Verified? || stage.Broadcasted? ==> r.signed.Some? && c.verifies(r.signed.value))
    && (stage.Claimed? || stage.Verified? || stage.Broadcasted? ==> r.key in s.ledger)
    && (stage.Broadcasted? ==> r.signed.value in s.relayed && stage.signature == c.signatureOf(r.signed.value))
    && (stage == Replied(Failed(BadRequest)) ==> r.signed.None? || !c.verifies(r.signed.value))
    && (stage == Replied(Failed(Network)) ==> r.signed.Some? && c.verifies(r.signed.value) && r.key in s.ledger)
    && (stage.Replied? && stage.response.Accepted? ==>
      && stage.response.status == Submitted
      && r.key in s.ledger && s.ledger[r.key].signature.Some?
      && Evidence(c, s, r.key, stage.response.signature))
  }

  ghost predicate SignaturesUnique(rows: Ledger) {
    forall k, l :: k in rows && l in rows && k != l && rows[k].signature.Some? ==>
      rows[k].signature != rows[l].signature
  }

  ghost predicate RelayedInv(c: Chain, s: System, signed: Bytes) {
    c.verifies(signed) && exists id :: id in s.handlers && s.handlers[id].request.signed == Some(signed)
  }

  ghost predicate ExecutedInv(c: Chain, s: System) {
    && (forall i :: 0 <= i < |s.executed| ==> s.executed[i] in s.relayed)
    && (forall i, j :: 0 <= i < j < |s.executed| ==>
      c.signatureOf(s.executed[i]) != c.signatureOf(s.executed[j]))
  }

  ghost predicate Inv(c: Chain, s: System) {
    && (forall key :: key in s.ledger ==> RowInv(c, s, key))
    && (forall id :: id in s.handlers ==> HandlerInv(c, s, id))
    && SignaturesUnique(s.ledger)
    && (forall signed :: signed in s.relayed ==> RelayedInv(c, s, signed))
    && ExecutedInv(c, s)
  }

  /** What later states keep of earlier ones. */
  ghost predicate Extends(s: System, t: System) {
    && (forall key :: key in s.ledger ==>
      && key in t.ledger
      && t.ledger[key].wallet == s.ledger[key].wallet
      && t.ledger[key].details == s.ledger[key].details
      && t.ledger[key].createdAt == s.ledger[key].createdAt
      && (s.ledger[key].signature.Some? ==> t.ledger[key].signature.Some?))
    && (forall id :: id in s.handlers ==> id in t.handlers && t.handlers[id].request == s.handlers[id].request)
    && s.relayed <= t.relayed
    && s.executed <= t.executed
  }

  lemma EvidenceKept(c: Chain, s: System, t: System, key: Key, signature: Signature)
    requires Extends(s, t) && Evidence(c, s, key, signature)
    ensures Evidence(c, t, key, signature)
  {
    var id :| id in s.handlers && EvidenceFrom(c, s, id, key, signature);
    assert EvidenceFrom(c, t, id, key, signature);
  }

  lemma ClaimKept(s: System, t: System, key: Key, details: Details)
    requires Extends(s, t) && ClaimedBy(s, key, details)
    ensures ClaimedBy(t, key, details)
  {
    var id :| id in s.handlers && s.handlers[id].request.key == key && s.handlers[id].request.details == details;
    assert id in t.handlers && t.handlers[id].request == s.handlers[id].request;
  }

  lemma StepExtends(c: Chain, s: System, e: Event)
    requires Enabled(c, s, e)
    ensures Extends(s, Step(c, s, e))
  {
  }

  lemma StepKeepsClaim(c: Chain, s: System, e: Event, key: Key)
    requires Enabled(c, s, e) && key in Step(c, s, e).ledger
    requires key in s.ledger ==> ClaimedBy(s, key, s.ledger[key].details)
    ensures ClaimedBy(Step(c, s, e), key, Step(c, s, e).ledger[key].details)
  {
    var t := Step(c, s, e);
    if key in s.ledger {
      StepExtends(c, s, e);
      hide Enabled, Step;
      ClaimKept(s, t, key, s.ledger[key].details);
    } else {
      assert t.handlers[e.id].request.key == key && t.handlers[e.id].request.details == t.ledger[key].details;
    }
  }

  /**
   How one step may leave a row: as it was; newly claimed, with its request's recipient,
   amount and mint, filed under the sender's wallet at the time of the insertion; or signed
   by its handler.
   */
  lemma RowStep(c: Chain, s: System, e: Event, key: Key)
    requires Enabled(c, s, e) && key in Step(c, s, e).ledger
    ensures
      var row := Step(c, s, e).ledger[key];
      || (key in s.ledger && row == s.ledger[key])
      || (e.Insert? && key !in s.ledger && key == s.handlers[e.id].request.key
          && row == Row(e.wallet, s.handlers[e.id].request.details, e.now, None, Pending))
      || (e.Mark? && key in s.ledger && key == s.handlers[e.id].request.key
          && row == s.ledger[key].(signature := Some(s.handlers[e.id].stage.signature), status := Submitted)
          && !SignatureTaken(s.ledger, key, s.handlers[e.id].stage.signature))
  {
  }

  lemma StepKeepsRows(c: Chain, s: System, e: Event, key: Key)
    requires Inv(c, s) && Enabled(c, s, e) && key in Step(c, s, e).ledger
    ensures RowInv(c, Step(c, s, e), key)
  {
    var t := Step(c, s, e);
    assert key in s.ledger ==> RowInv(c, s, key);
    StepKeepsClaim(c, s, e, key);
    StepExtends(c, s, e);
    RowStep(c, s, e, key);
    if e.Mark? { MarkEvidenced(c, s, e); }
    hide ClaimedBy, Evidence, Step, Enabled, Extends;
    if key in s.ledger && t.ledger[key] == s.ledger[key] && s.ledger[key].signature.Some? {
      EvidenceKept(c, s, t, key, s.ledger[key].signature.value);
    }
  }

  /** What a handler records is its own request's, relayed, signature. */
  lemma MarkEvidenced(c: Chain, s: System, e: Event)
    requires Inv(c, s) && Enabled(c, s, e) && e.Mark?
    ensures Evidence(c, Step(c, s, e), s.handlers[e.id].request.key, s.handlers[e.id].stage.signature)
  {
    assert HandlerInv(c, s, e.id);
    assert EvidenceFrom(c, Step(c, s, e), e.id, s.handlers[e.id].request.key, s.handlers[e.id].stage.signature);
  }

  lemma OtherHandlersKept(c: Chain, s: System, t: System, id: nat)
    requires Extends(s, t) && id in s.handlers && HandlerInv(c, s, id) && t.handlers[id] == s.handlers[id]
    ensures HandlerInv(c, t, id)
  {
    var Handler(r, stage) := s.handlers[id];
    if stage.Replied? && stage.response.Accepted? {
      EvidenceKept(c, s, t, r.key, stage.response.signature);
    }
  }

  lemma LookupKeepsHandler(c: Chain, s: System, e: Event)
    requires Inv(c, s) && Enabled(c, s, e) && e.Lookup?
    ensures HandlerInv(c, Step(c, s, e), e.id)
  {
    var key := s.handlers[e.id].request.key;
    if key in s.ledger {
      assert RowInv(c, s, key);
      if s.ledger[key].signature.Some? {
        StepExtends(c, s, e);
        EvidenceKept(c, s, Step(c, s, e), key, s.ledger[key].signature.value);
      }
    }
  }

  lemma MarkKeepsHandler(c: Chain, s: System, e: Event)
    requires Inv(c, s) && Enabled(c, s, e) && e.Mark?
    ensures HandlerInv(c, Step(c, s, e), e.id)
  {
    assert HandlerInv(c, s, e.id);
    MarkEvidenced(c, s, e);
  }

  /** A step moves one handler and leaves the others where they are. */
  lemma OthersStand(c: Chain, s: System, e: Event, id: nat)
    requires Enabled(c, s, e) && id in Step(c, s, e).handlers && (e.Execute? || id != e.id)
    ensures id in s.handlers && Step(c, s, e).handlers[id] == s.handlers[id]
  {
  }

  lemma AdvanceKeepsHandler(c: Chain, s: System, e: Event)
    requires Inv(c, s) && Enabled(c, s, e) && (e.Insert? || e.Validate? || e.Broadcast? || e.Crash?)
    ensures HandlerInv(c, Step(c, s, e), e.id)
  {
    assert HandlerInv(c, s, e.id);
  }

  lemma StepKeepsHandlers(c: Chain, s: System, e: Event, id: nat)
    requires Inv(c, s) && Enabled(c, s, e) && id in Step(c, s, e).handlers
    ensures HandlerInv(c, Step(c, s, e), id)
  {
    if e.Execute? || id != e.id {
      hide Step, Enabled, HandlerInv, Extends;
      StepExtends(c, s, e);
      OthersStand(c, s, e, id);
      OtherHandlersKept(c, s, Step(c, s, e), id);
    } else if e.Lookup? {
      LookupKeepsHandler(c, s, e);
    } else if e.Mark? {
      MarkKeepsHandler(c, s, e);
    } else if !e.Receive? {
      AdvanceKeepsHandler(c, s, e);
    }
  }

  lemma StepKeepsRelayed(c: Chain, s: System, e: Event, signed: Bytes)
    requires Inv(c, s) && Enabled(c, s, e) && signed in Step(c, s, e).relayed
    ensures RelayedInv(c, Step(c, s, e), signed)
  {
    var t := Step(c, s, e);
    StepExtends(c, s, e);
    if signed in s.relayed {
      assert RelayedInv(c, s, signed);
      var id :| id in s.handlers && s.handlers[id].request.signed == Some(signed);
      assert t.handlers[id].request.signed == Some(signed);
    } else {
      assert HandlerInv(c, s, e.id);
      assert t.handlers[e.id].request.signed == Some(signed);
    }
  }

  lemma StepKeepsSignatures(c: Chain, s: System, e: Event)
    requires SignaturesUnique(s.ledger) && Enabled(c, s, e)
    ensures SignaturesUnique(Step(c, s, e).ledger)
  {
    hide Step, Enabled;
    var t := Step(c, s, e);
    forall k, l | k in t.ledger && l in t.ledger && k != l && t.ledger[k].signature.Some?
      ensures t.ledger[k].signature != t.ledger[l].signature
    {
      RowStep(c, s, e, k);
      RowStep(c, s, e, l);
    }
  }

  lemma StepKeepsExecuted(c: Chain, s: System, e: Event)
    requires ExecutedInv(c, s) && Enabled(c, s, e)
    ensures ExecutedInv(c, Step(c, s, e))
  {
  }

  lemma StepKeepsInv(c: Chain, s: System, e: Event)
    requires Inv(c, s) && Enabled(c, s, e)
    ensures Inv(c, Step(c, s, e))
  {
    hide RowInv, HandlerInv, RelayedInv, ExecutedInv, SignaturesUnique, Step;
    var t := Step(c, s, e);
    forall key | key in t.ledger ensures RowInv(c, t, key) { StepKeepsRows(c, s, e, key); }
    forall id | id in t.handlers ensures HandlerInv(c, t, id) { StepKeepsHandlers(c, s, e, id); }
    forall signed | signed in t.relayed ensures RelayedInv(c, t, signed) { StepKeepsRelayed(c, s, e, signed); }
    StepKeepsSignatures(c, s, e);
    StepKeepsExecuted(c, s, e);
  }

  lemma {:induction false} RunKeepsInv(c: Chain, s: System, es: seq<Event>)
    requires Inv(c, s) && Run(c, s, es).Some?
    ensures Inv(c, Run(c, s, es).value) && Extends(s, Run(c, s, es).value)
    decreases |es|
  {
    if es != [] {
      StepKeepsInv(c, s, es[0]);
      StepExtends(c, s, es[0]);
      RunKeepsInv(c, Step(c, s, es[0]), es[1..]);
    }
  }

  lemma ReachableInv(c: Chain, s: System)
    requires Reachable(c, s)
    ensures Inv(c, s)
  {
    var es :| Run(c, INITIAL, es) == Some(s);
    RunKeepsInv(c, INITIAL, es);
  }
}
