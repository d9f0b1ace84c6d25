/**
 The `submit` handler as written (backend/src/handlers/tx.rs:111-154), one uninterrupted
 call against the ledger table and the network. It is shown to be a behaviour of the state
 machine of `Submit`, so everything `SubmitSafety` proves of that machine holds of it.
 */
module SubmitHandler {
  import opened Wrappers
  import opened Transactions
  import opened Submit
  import opened SubmitSafety

  class Node {
    var relayed: set<Bytes>

    /** The signature when the node acknowledged the bytes; they may be relayed either way. */
    method Broadcast(c: Chain, signed: Bytes, reaches: bool, acknowledged: bool)
      returns (signature: Option<Signature>)
      requires acknowledged ==> reaches
      modifies this
      ensures relayed == old(relayed) + if reaches then {signed} else {}
      ensures signature == if acknowledged then Some(c.signatureOf(signed)) else None
    {
      if reaches {
        relayed := relayed + {signed};
      }
      signature := if acknowledged then Some(c.signatureOf(signed)) else None;
    }
  }

  /** What the environment does to one call. */
  datatype Weather = Weather(
    lookupFails: bool, wallet: Option<WalletId>, now: int, insert: Outcome,
    reaches: bool, acknowledged: bool, mark: Outcome)

  /** The trace one call leaves, from a state in which `id` is new. */
  ghost function Trace(c: Chain, s: System, id: nat, r: Request, w: Weather): seq<Event> {
    [Receive(id, r)] + (
      if r.signed.None? then []
      else [Lookup(id, w.lookupFails)] + (if w.lookupFails then [] else LedgerTrace(c, s, id, r, w))
    )
  }

  ghost function LedgerTrace(c: Chain, s: System, id: nat, r: Request, w: Weather): seq<Event>
    requires r.signed.Some?
  {
    match Find(s.ledger, r.key)
    case Some(Existing(Some(_), _)) => []
    case Some(Existing(None, _)) => RelayTrace(c, id, r, w)
    case None => [Insert(id, w.wallet, w.now, w.insert)] + (if w.insert != Done then [] else RelayTrace(c, id, r, w))
  }

  ghost function RelayTrace(c: Chain, id: nat, r: Request, w: Weather): seq<Event>
    requires r.signed.Some?
  {
    [Validate(id)] + (
      if !c.verifies(r.signed.value) then []
      else [Broadcast(id, w.reaches, w.acknowledged)] + (if !w.acknowledged then [] else [Mark(id, w.mark)])
    )
  }

  /** The two ways to be answered before the ledger is read. */
  lemma EarlyAnswerRuns(c: Chain, s: System, id: nat, r: Request, w: Weather)
    requires id !in s.handlers && (r.signed.None? || w.lookupFails)
    ensures
      var error := if r.signed.None? then BadRequest else Database;
      Run(c, s, Trace(c, s, id, r, w)) == Some(s.(handlers := s.handlers[id := Handler(r, Replied(Failed(error)))]))
  {
    var es := Trace(c, s, id, r, w);
    var t := Step(c, s, es[0]);
    RunStep(c, s, es[0], es);
    if r.signed.Some? {
      RunStep(c, t, es[1], es[1..]);
      assert Step(c, t, es[1]).handlers == s.handlers[id := Handler(r, Replied(Failed(Database)))];
    }
  }

  method SubmitTransaction(
      c: Chain, table: Table, node: Node, r: Request, w: Weather, ghost s: System, ghost id: nat)
    returns (response: Response)
    requires s.ledger == table.rows && s.relayed == node.relayed && id !in s.handlers
    requires w.acknowledged ==> w.reaches
    modifies table, node
    ensures
      var t := Run(c, s, Trace(c, s, id, r, w));
      && t.Some?
      && t.value == System(table.rows, s.handlers[id := Handler(r, Replied(response))], node.relayed, s.executed)
  {
    if r.signed.None? || w.lookupFails {
      EarlyAnswerRuns(c, s, id, r, w);
    }
    hide Step, Enabled;
    if r.signed.None? {
      return Failed(BadRequest);
    }
    var signed := r.signed.value;

    if w.lookupFails {
      return Failed(Database);
    }
    var existing := table.FindByIdempotency(r.key);
    ghost var t, rest := Looked(s, id, r), LedgerTrace(c, s, id, r, w);
    assert Trace(c, s, id, r, w) == [Receive(id, r), Lookup(id, false)] + rest;
    LookupRuns(c, s, id, r, rest);
    if existing.Some? {
      if existing.value.signature.Some? {
        return Accepted(existing.value.signature.value, existing.value.status);
      }
    } else {
      InsertRuns(c, t, id, r, w.wallet, w.now, w.insert, rest[1..]);
      assert rest == [Insert(id, w.wallet, w.now, w.insert)] + rest[1..];
      t := Inserted(t, id, r, w.wallet, w.now, w.insert);
      var claimed := table.InsertPending(w.wallet, r.key, r.details, w.now, w.insert);
      if !claimed {
        return Failed(Database);
      }
    }
    response := Relay(c, table, node, signed, r, w, t, id);
  }

  /** Validate, broadcast, record: tx.rs:144-153. */
  method Relay(
      c: Chain, table: Table, node: Node, signed: Bytes, r: Request, w: Weather, ghost s: System, ghost id: nat)
    returns (response: Response)
    requires s.ledger == table.rows && s.relayed == node.relayed
    requires r.signed == Some(signed) && id in s.handlers && s.handlers[id] == Handler(r, Claimed)
    requires w.acknowledged ==> w.reaches
    modifies table, node
    ensures
      var t := Run(c, s, RelayTrace(c, id, r, w));
      && t.Some?
      && t.value == System(table.rows, s.handlers[id := Handler(r, Replied(response))], node.relayed, s.executed)
  {
    ghost var es := RelayTrace(c, id, r, w);
    ghost var t := Step(c, s, es[0]);
    RunStep(c, s, es[0], es);
    if !c.verifies(signed) {
      return Failed(BadRequest);
    }
    ghost var u := Step(c, t, es[1]);
    RunStep(c, t, es[1], es[1..]);
    var signature := node.Broadcast(c, signed, w.reaches, w.acknowledged);
    if signature.None? {
      return Failed(Network);
    }
    RunStep(c, u, es[2], es[2..]);
    var recorded := table.MarkSubmitted(r.key, signature.value, w.mark);
    response := if recorded then Accepted(signature.value, Submitted) else Failed(Database);
  }
}
