/**
 What the submission protocol guarantees over every run, and exactly when: "a crash never
 loses money and never double-sends" (docs/00-PRD.md, invariant 2).
 */
module SubmitSafety {
  import opened Wrappers
  import opened Transactions
  import opened Submit

  // ---- the ledger over whole runs ----

  /** Rows, requests and executions only accumulate; claimed fields and "signed" never revert. */
  lemma LedgerGrows(c: Chain, s: System, es: seq<Event>)
    requires Reachable(c, s) && Run(c, s, es).Some?
    ensures Extends(s, Run(c, s, es).value)
  {
    ReachableInv(c, s);
    RunKeepsInv(c, s, es);
  }

  lemma LedgerInvariants(c: Chain, s: System)
    requires Reachable(c, s)
    ensures forall k :: k in s.ledger ==> (s.ledger[k].signature.Some? <==> s.ledger[k].status == Submitted)
    ensures forall k :: k in s.ledger ==> ClaimedBy(s, k, s.ledger[k].details)
    ensures SignaturesUnique(s.ledger)
    ensures forall id :: id in s.handlers && (s.handlers[id].stage.Verified? || s.handlers[id].stage.Broadcasted?) ==>
      s.handlers[id].request.key in s.ledger
  {
    ReachableInv(c, s);
    forall k | k in s.ledger
      ensures s.ledger[k].signature.Some? <==> s.ledger[k].status == Submitted
      ensures ClaimedBy(s, k, s.ledger[k].details)
    {
      assert RowInv(c, s, k);
    }
    forall id | id in s.handlers && (s.handlers[id].stage.Verified? || s.handlers[id].stage.Broadcasted?)
      ensures s.handlers[id].request.key in s.ledger
    {
      assert HandlerInv(c, s, id);
    }
  }

  /** What an error answer tells the client. */
  lemma ErrorsMean(c: Chain, s: System, id: nat)
    requires Reachable(c, s) && id in s.handlers && s.handlers[id].stage.Replied?
    ensures
      var Handler(r, Replied(response)) := s.handlers[id];
      && (response == Failed(BadRequest) ==> r.signed.None? || !c.verifies(r.signed.value))
      && (response == Failed(Network) ==> r.signed.Some? && c.verifies(r.signed.value) && r.key in s.ledger)
  {
    ReachableInv(c, s);
    assert HandlerInv(c, s, id);
  }

  /** Event i of the run inserted this row: its wallet, its time, its request's details. */
  ghost predicate Inserts(c: Chain, s: System, es: seq<Event>, i: nat, key: Key, row: Row)
    requires i < |es|
  {
    && es[i].Insert? && row.wallet == es[i].wallet && row.createdAt == es[i].now
    && match Run(c, s, es[..i])
       case None => false
       case Some(t) =>
         && key !in t.ledger && es[i].id in t.handlers
         && t.handlers[es[i].id].request.key == key && t.handlers[es[i].id].request.details == row.details
  }

  lemma InsertsLater(c: Chain, s: System, es: seq<Event>, i: nat, key: Key, row: Row)
    requires es != [] && Enabled(c, s, es[0]) && i < |es| - 1
    requires Inserts(c, Step(c, s, es[0]), es[1..], i, key, row)
    ensures Inserts(c, s, es, i + 1, key, row)
  {
    hide Step, Enabled;
    assert es[..i + 2 - 1][0] == es[0] && es[..i + 1][1..] == es[1..][..i];
  }

  /** A row of a run's ledger was there at the start or is as some event inserted it. */
  lemma {:induction false} RowOrigin(c: Chain, s: System, es: seq<Event>, key: Key)
    requires Run(c, s, es).Some? && key in Run(c, s, es).value.ledger && key !in s.ledger
    ensures exists i :: 0 <= i < |es| && Inserts(c, s, es, i, key, Run(c, s, es).value.ledger[key])
    decreases |es|
  {
    if es != [] {
      var t := Step(c, s, es[0]);
      if key in t.ledger {
        RowStep(c, s, es[0], key);
        hide Step, Enabled;
        RunExtends(c, t, es[1..]);
        assert es[..0] == [];
        assert Inserts(c, s, es, 0, key, Run(c, s, es).value.ledger[key]);
      } else {
        hide Step, Enabled;
        RowOrigin(c, t, es[1..], key);
        var i :| 0 <= i < |es| - 1 && Inserts(c, t, es[1..], i, key, Run(c, t, es[1..]).value.ledger[key]);
        InsertsLater(c, s, es, i, key, Run(c, s, es).value.ledger[key]);
      }
    }
  }

  /** A handler that has not looked up yet, or that answered without broadcasting. */
  ghost predicate Quiet(h: Handler) {
    h.stage.Received? || h.stage.Replied? || h.stage.Crashed?
  }

  ghost predicate Settled(s: System, id: nat, key: Key) {
    && key in s.ledger && s.ledger[key].signature.Some?
    && (id in s.handlers ==> Quiet(s.handlers[id]) && s.handlers[id].request.key == key)
  }

  lemma QuietStays(c: Chain, s: System, e: Event, id: nat, key: Key)
    requires Settled(s, id, key) && Enabled(c, s, e) && (e.Receive? && e.id == id ==> e.request.key == key)
    ensures Settled(Step(c, s, e), id, key) && !(e.Broadcast? && e.id == id)
  {
    StepExtends(c, s, e);
  }

  lemma ReceivedRequestKept(c: Chain, s: System, e: Event, id: nat)
    requires Enabled(c, s, e) && e.Receive? && e.id == id
    ensures id in Step(c, s, e).handlers && Step(c, s, e).handlers[id].request == e.request
  {
  }

  /** A request whose lookup follows the recording of its key never broadcasts. */
  lemma {:induction false} LateRequestNeverBroadcasts(c: Chain, s: System, es: seq<Event>, id: nat, key: Key)
    requires Run(c, s, es).Some? && Settled(s, id, key)
    requires id in Run(c, s, es).value.handlers ==> Run(c, s, es).value.handlers[id].request.key == key
    ensures forall i :: 0 <= i < |es| ==> !(es[i].Broadcast? && es[i].id == id)
    ensures Settled(Run(c, s, es).value, id, key)
    decreases |es|
  {
    if es != [] {
      hide Step, Enabled, Settled;
      var t := Step(c, s, es[0]);
      RunExtends(c, t, es[1..]);
      if es[0].Receive? && es[0].id == id {
        ReceivedRequestKept(c, s, es[0], id);
      }
      QuietStays(c, s, es[0], id, key);
      LateRequestNeverBroadcasts(c, t, es[1..], id, key);
    }
  }

  lemma {:induction false} RunExtends(c: Chain, s: System, es: seq<Event>)
    requires Run(c, s, es).Some?
    ensures Extends(s, Run(c, s, es).value)
    decreases |es|
  {
    if es != [] {
      StepExtends(c, s, es[0]);
      RunExtends(c, Step(c, s, es[0]), es[1..]);
    }
  }

  // ---- never two ----

  ghost function Requests(s: System): set<Request> {
    set id | id in s.handlers :: s.handlers[id].request
  }

  /** Requests that share a key and verify carry one and the same signature. */
  ghost predicate Agree(c: Chain, requests: set<Request>) {
    forall p, q :: p in requests && q in requests && SameKeyBothVerify(c, p, q) ==>
      c.signatureOf(p.signed.value) == c.signatureOf(q.signed.value)
  }

  ghost predicate SameKeyBothVerify(c: Chain, p: Request, q: Request) {
    && p.key == q.key && p.signed.Some? && q.signed.Some?
    && c.verifies(p.signed.value) && c.verifies(q.signed.value)
  }

  ghost predicate Carries(s: System, id: nat, key: Key, signed: Bytes)
    requires id in s.handlers
  {
    s.handlers[id].request.key == key && s.handlers[id].request.signed == Some(signed)
  }

  /** The i-th executed transaction was submitted under this key. */
  ghost predicate ExecutedFor(s: System, i: nat, key: Key)
    requires i < |s.executed|
  {
    exists id :: id in s.handlers && Carries(s, id, key, s.executed[i])
  }

  ghost predicate AtMostOnce(s: System) {
    forall i, j, key ::
      0 <= i < |s.executed| && 0 <= j < |s.executed| && ExecutedFor(s, i, key) && ExecutedFor(s, j, key) ==> i == j
  }

  ghost predicate Answered(s: System, id: nat, signature: Signature) {
    id in s.handlers && s.handlers[id].stage == Replied(Accepted(signature, Submitted))
  }

  /** All successful answers under one key name the recorded and the executed transaction. */
  ghost predicate AnswersAgree(c: Chain, s: System) {
    forall id, signature :: Answered(s, id, signature) ==>
      var key := s.handlers[id].request.key;
      && key in s.ledger && s.ledger[key].signature == Some(signature)
      && (forall i :: 0 <= i < |s.executed| && ExecutedFor(s, i, key) ==> c.signatureOf(s.executed[i]) == signature)
  }

  ghost predicate Safe(c: Chain, s: System) {
    AtMostOnce(s) && AnswersAgree(c, s)
  }

  lemma AgreeMakesAtMostOnce(c: Chain, s: System)
    requires Inv(c, s) && Agree(c, Requests(s))
    ensures AtMostOnce(s)
  {
    forall i, j, key |
      0 <= i < |s.executed| && 0 <= j < |s.executed| && ExecutedFor(s, i, key) && ExecutedFor(s, j, key)
      ensures i == j
    {
      var a :| a in s.handlers && Carries(s, a, key, s.executed[i]);
      var b :| b in s.handlers && Carries(s, b, key, s.executed[j]);
      assert RelayedInv(c, s, s.executed[i]) && RelayedInv(c, s, s.executed[j]);
      assert SameKeyBothVerify(c, s.handlers[a].request, s.handlers[b].request);
    }
  }

  /** Under agreement, every verified request of a key has any signature evidenced for it. */
  lemma EvidenceMatches(c: Chain, s: System, r: Request, signature: Signature)
    requires Inv(c, s) && Agree(c, Requests(s) + {r}) && Evidence(c, s, r.key, signature)
    requires r.signed.Some? && c.verifies(r.signed.value)
    ensures c.signatureOf(r.signed.value) == signature
  {
    var id :| id in s.handlers && EvidenceFrom(c, s, id, r.key, signature);
    var q := s.handlers[id].request;
    assert RelayedInv(c, s, q.signed.value);
    assert q in Requests(s);
    assert SameKeyBothVerify(c, r, q);
  }

  lemma EvidenceUnique(c: Chain, s: System, key: Key, a: Signature, b: Signature)
    requires Inv(c, s) && Agree(c, Requests(s)) && Evidence(c, s, key, a) && Evidence(c, s, key, b)
    ensures a == b
  {
    var id :| id in s.handlers && EvidenceFrom(c, s, id, key, a);
    var q := s.handlers[id].request;
    assert RelayedInv(c, s, q.signed.value);
    assert q in Requests(s) && Requests(s) + {q} == Requests(s);
    EvidenceMatches(c, s, q, b);
  }

  lemma AgreeMakesAnswersAgree(c: Chain, s: System)
    requires Inv(c, s) && Agree(c, Requests(s))
    ensures AnswersAgree(c, s)
  {
    forall id, signature | Answered(s, id, signature)
      ensures
        var key := s.handlers[id].request.key;
        && key in s.ledger && s.ledger[key].signature == Some(signature)
        && (forall i :: 0 <= i < |s.executed| && ExecutedFor(s, i, key) ==> c.signatureOf(s.executed[i]) == signature)
    {
      var key := s.handlers[id].request.key;
      assert HandlerInv(c, s, id) && RowInv(c, s, key);
      EvidenceUnique(c, s, key, signature, s.ledger[key].signature.value);
      forall i | 0 <= i < |s.executed| && ExecutedFor(s, i, key)
        ensures c.signatureOf(s.executed[i]) == signature
      {
        var a :| a in s.handlers && Carries(s, a, key, s.executed[i]);
        assert RelayedInv(c, s, s.executed[i]);
        assert s.handlers[a].request in Requests(s) && Requests(s) + {s.handlers[a].request} == Requests(s);
        EvidenceMatches(c, s, s.handlers[a].request, signature);
      }
    }
  }

  /**
   Two requests that share a key, verify, and disagree on the signature: both look up
   before either claims, both broadcast, both execute, and the second recording
   overwrites the first.
   */
  ghost function Clash(p: Request, q: Request): seq<Event>
    requires p.signed.Some? && q.signed.Some?
  {
    ClashStart(p, q) + CLASH_RACE + ClashEnd(p, q)
  }

  ghost function ClashStart(p: Request, q: Request): seq<Event> {
    [Receive(0, p), Receive(1, q), Lookup(0, false), Lookup(1, false), Insert(0, None, 0, Done)]
  }

  ghost const CLASH_RACE := [
    Insert(1, None, 0, Done), Validate(0), Validate(1), Broadcast(0, true, true), Broadcast(1, true, true)]

  ghost function ClashEnd(p: Request, q: Request): seq<Event>
    requires p.signed.Some? && q.signed.Some?
  {
    [Mark(0, Done), Mark(1, Done), Execute(p.signed.value), Execute(q.signed.value)]
  }

  lemma RunStep(c: Chain, s: System, e: Event, es: seq<Event>)
    requires es != [] && es[0] == e && Enabled(c, s, e)
    ensures Run(c, s, es) == Run(c, Step(c, s, e), es[1..])
  {
  }

  ghost function Pair(p: Request, at0: Stage, q: Request, at1: Stage): map<nat, Handler> {
    map[0 := Handler(p, at0), 1 := Handler(q, at1)]
  }

  lemma ClashRuns(c: Chain, p: Request, q: Request)
    requires SameKeyBothVerify(c, p, q) && c.signatureOf(p.signed.value) != c.signatureOf(q.signed.value)
    ensures
      var a, b := c.signatureOf(p.signed.value), c.signatureOf(q.signed.value);
      Run(c, INITIAL, Clash(p, q)) == Some(System(
        map[p.key := Row(None, p.details, 0, Some(b), Submitted)],
        Pair(p, Replied(Accepted(a, Submitted)), q, Replied(Accepted(b, Submitted))),
        {p.signed.value, q.signed.value},
        [p.signed.value, q.signed.value]))
  {
    var a, b := c.signatureOf(p.signed.value), c.signatureOf(q.signed.value);
    var row := Row(None, p.details, 0, None, Pending);
    var s1 := System(map[p.key := row], Pair(p, Claimed, q, Unclaimed), {}, []);
    ClashStarts(c, p, q, s1);
    var s2 := System(
      map[p.key := row], Pair(p, Broadcasted(a), q, Broadcasted(b)), {p.signed.value, q.signed.value}, []);
    ClashRaces(c, p, q, s1, s2);
    var s3 := System(
      map[p.key := Row(None, p.details, 0, Some(b), Submitted)],
      Pair(p, Replied(Accepted(a, Submitted)), q, Replied(Accepted(b, Submitted))),
      {p.signed.value, q.signed.value}, [p.signed.value, q.signed.value]);
    ClashEnds(c, p, q, s2, s3);
    RunConcat(c, INITIAL, ClashStart(p, q), CLASH_RACE);
    RunConcat(c, INITIAL, ClashStart(p, q) + CLASH_RACE, ClashEnd(p, q));
  }

  lemma ClashStarts(c: Chain, p: Request, q: Request, t: System)
    requires p.key == q.key && p.signed.Some? && q.signed.Some?
    requires t == System(map[p.key := Row(None, p.details, 0, None, Pending)], Pair(p, Claimed, q, Unclaimed), {}, [])
    ensures Run(c, INITIAL, ClashStart(p, q)) == Some(t)
  {
    var es := ClashStart(p, q);
    var s := System(map[], Pair(p, Received, q, Received), {}, []);
    RunStep(c, INITIAL, es[0], es);
    RunStep(c, Step(c, INITIAL, es[0]), es[1], es[1..]);
    assert Step(c, Step(c, INITIAL, es[0]), es[1]) == s;
    RunStep(c, s, es[2], es[2..]);
    var u := System(map[], Pair(p, Unclaimed, q, Unclaimed), {}, []);
    RunStep(c, Step(c, s, es[2]), es[3], es[3..]);
    assert Step(c, Step(c, s, es[2]), es[3]) == u;
    RunStep(c, u, es[4], es[4..]);
    assert Step(c, u, es[4]) == t;
  }

  lemma ClashRaces(c: Chain, p: Request, q: Request, s: System, t: System)
    requires SameKeyBothVerify(c, p, q)
    requires s == System(map[p.key := Row(None, p.details, 0, None, Pending)], Pair(p, Claimed, q, Unclaimed), {}, [])
    requires t == s.(
      handlers := Pair(p, Broadcasted(c.signatureOf(p.signed.value)), q, Broadcasted(c.signatureOf(q.signed.value))),
      relayed := {p.signed.value, q.signed.value})
    ensures Run(c, s, CLASH_RACE) == Some(t)
  {
    var es := CLASH_RACE;
    var u := s.(handlers := Pair(p, Claimed, q, Claimed));
    RunStep(c, s, es[0], es);
    assert Step(c, s, es[0]) == u;
    var v := s.(handlers := Pair(p, Verified, q, Verified));
    RunStep(c, u, es[1], es[1..]);
    RunStep(c, Step(c, u, es[1]), es[2], es[2..]);
    assert Step(c, Step(c, u, es[1]), es[2]) == v;
    RunStep(c, v, es[3], es[3..]);
    RunStep(c, Step(c, v, es[3]), es[4], es[4..]);
    assert Step(c, Step(c, v, es[3]), es[4]) == t;
  }

  lemma ClashEnds(c: Chain, p: Request, q: Request, s: System, t: System)
    requires SameKeyBothVerify(c, p, q)
    requires c.signatureOf(p.signed.value) != c.signatureOf(q.signed.value)
    requires
      var a, b := c.signatureOf(p.signed.value), c.signatureOf(q.signed.value);
      && s == System(
        map[p.key := Row(None, p.details, 0, None, Pending)],
        Pair(p, Broadcasted(a), q, Broadcasted(b)), {p.signed.value, q.signed.value}, [])
      && t == System(
        map[p.key := Row(None, p.details, 0, Some(b), Submitted)],
        Pair(p, Replied(Accepted(a, Submitted)), q, Replied(Accepted(b, Submitted))),
        {p.signed.value, q.signed.value}, [p.signed.value, q.signed.value])
    ensures Run(c, s, ClashEnd(p, q)) == Some(t)
  {
    var es := ClashEnd(p, q);
    RunStep(c, s, es[0], es);
    RunStep(c, Step(c, s, es[0]), es[1], es[1..]);
    var u := t.(executed := []);
    assert Step(c, Step(c, s, es[0]), es[1]) == u;
    RunStep(c, u, es[2], es[2..]);
    RunStep(c, Step(c, u, es[2]), es[3], es[3..]);
    assert Step(c, Step(c, u, es[2]), es[3]) == t;
  }

  lemma TwiceExecuted(s: System, key: Key, a: nat, b: nat)
    requires a in s.handlers && b in s.handlers && |s.executed| == 2
    requires Carries(s, a, key, s.executed[0]) && Carries(s, b, key, s.executed[1])
    ensures ExecutedFor(s, 0, key) && ExecutedFor(s, 1, key) && !AtMostOnce(s)
  {
    assert ExecutedFor(s, 0, key) && ExecutedFor(s, 1, key);
  }

  lemma ClashUnsafe(c: Chain, p: Request, q: Request)
    requires SameKeyBothVerify(c, p, q) && c.signatureOf(p.signed.value) != c.signatureOf(q.signed.value)
    ensures exists s :: Reachable(c, s) && Requests(s) == {p, q} && !AtMostOnce(s) && !AnswersAgree(c, s)
  {
    ClashRuns(c, p, q);
    var s := Run(c, INITIAL, Clash(p, q)).value;
    hide Run, Clash;
    assert s.handlers[0].request == p && s.handlers[1].request == q;
    TwiceExecuted(s, p.key, 0, 1);
    assert Answered(s, 0, c.signatureOf(p.signed.value));
    assert Reachable(c, s);
  }

  /**
   Exactly when submission never double-sends: a workload is safe in every interleaving,
   crash and lost answer if and only if its requests agree on a signature per key.
   */
  lemma {:induction false} NeverTwiceIffAgree(c: Chain, workload: set<Request>)
    ensures (forall s :: Reachable(c, s) && Requests(s) <= workload ==> Safe(c, s)) <==> Agree(c, workload)
    ensures !Agree(c, workload) ==>
      exists s :: Reachable(c, s) && Requests(s) <= workload && !AtMostOnce(s) && !AnswersAgree(c, s)
  {
    if Agree(c, workload) {
      forall s | Reachable(c, s) && Requests(s) <= workload ensures Safe(c, s) {
        ReachableInv(c, s);
        AgreeMakesAtMostOnce(c, s);
        AgreeMakesAnswersAgree(c, s);
      }
    } else {
      var p, q :| p in workload && q in workload && SameKeyBothVerify(c, p, q) &&
        c.signatureOf(p.signed.value) != c.signatureOf(q.signed.value);
      ClashUnsafe(c, p, q);
      assert {p, q} <= workload;
    }
  }

  // ---- recovery ----

  /** One uninterrupted attempt: no crash, no failing statement, the network accepts. */
  ghost function Attempt(s: System, id: nat, r: Request, wallet: Option<WalletId>, now: int): seq<Event> {
    var finish := [Validate(id), Broadcast(id, true, true), Mark(id, Done)];
    [Receive(id, r), Lookup(id, false)] + (
      match Find(s.ledger, r.key)
      case None => [Insert(id, wallet, now, Done)] + finish
      case Some(Existing(None, _)) => finish
      case Some(Existing(Some(_), _)) => []
    )
  }

  ghost function AttemptAnswer(c: Chain, s: System, r: Request): Response
    requires r.signed.Some?
  {
    var signature := c.signatureOf(r.signed.value);
    if r.key in s.ledger && s.ledger[r.key].signature.Some? then
      Accepted(s.ledger[r.key].signature.value, s.ledger[r.key].status)
    else if SignatureTaken(s.ledger, r.key, signature) then Failed(Database)
    else Accepted(signature, Submitted)
  }

  /** The claim if there was none, and the recording unless it is there or refused. */
  ghost function AttemptLedger(
      c: Chain, s: System, r: Request, wallet: Option<WalletId>, now: int): Ledger
    requires r.signed.Some?
  {
    var claimed := Claim(s.ledger, wallet, r.key, r.details, now);
    var signature := c.signatureOf(r.signed.value);
    if claimed[r.key].signature.Some? || SignatureTaken(s.ledger, r.key, signature) then claimed
    else Recorded(claimed, r.key, signature)
  }

  ghost function AttemptRelays(s: System, r: Request): set<Bytes>
    requires r.signed.Some?
  {
    if r.key in s.ledger && s.ledger[r.key].signature.Some? then {} else {r.signed.value}
  }

  ghost function Finished(c: Chain, s: System, id: nat): System
    requires At(s, id, Claimed)
  {
    var Request(Some(signed), key, details) := s.handlers[id].request;
    var signature := c.signatureOf(signed);
    var refused := SignatureTaken(s.ledger, key, signature);
    var response := if refused then Failed(Database) else Accepted(signature, Submitted);
    System(
      if refused then s.ledger else Recorded(s.ledger, key, signature),
      s.handlers[id := Handler(s.handlers[id].request, Replied(response))],
      s.relayed + {signed},
      s.executed)
  }

  lemma FinishRuns(c: Chain, s: System, id: nat)
    requires At(s, id, Claimed) && s.handlers[id].request.key in s.ledger
    requires c.verifies(s.handlers[id].request.signed.value)
    ensures Run(c, s, [Validate(id), Broadcast(id, true, true), Mark(id, Done)]) == Some(Finished(c, s, id))
  {
    var es := [Validate(id), Broadcast(id, true, true), Mark(id, Done)];
    var u := Step(c, s, es[0]);
    var v := Step(c, u, es[1]);
    RunStep(c, s, es[0], es);
    RunStep(c, u, es[1], es[1..]);
    RunStep(c, v, es[2], es[2..]);
    assert Step(c, v, es[2]) == Finished(c, s, id);
  }

  lemma ClaimTakesNoSignature(
      rows: Ledger, wallet: Option<WalletId>, key: Key, details: Details, now: int, signature: Signature)
    ensures SignatureTaken(Claim(rows, wallet, key, details, now), key, signature) <==>
      SignatureTaken(rows, key, signature)
  {
    var claimed := Claim(rows, wallet, key, details, now);
    forall k | k in rows ensures k in claimed && claimed[k] == rows[k] {}
  }

  ghost function Looked(s: System, id: nat, r: Request): System {
    var stage :=
      match Find(s.ledger, r.key)
      case None => Unclaimed
      case Some(Existing(None, _)) => Claimed
      case Some(Existing(Some(signature), status)) => Replied(Accepted(signature, status));
    s.(handlers := s.handlers[id := Handler(r, stage)])
  }

  lemma LookupRuns(c: Chain, s: System, id: nat, r: Request, rest: seq<Event>)
    requires id !in s.handlers && r.signed.Some?
    ensures Run(c, s, [Receive(id, r), Lookup(id, false)] + rest) == Run(c, Looked(s, id, r), rest)
  {
    var es := [Receive(id, r), Lookup(id, false)] + rest;
    var u := Step(c, s, es[0]);
    RunStep(c, s, es[0], es);
    RunStep(c, u, es[1], es[1..]);
    assert Step(c, u, es[1]) == Looked(s, id, r);
    assert es[1..][1..] == rest;
  }

  ghost function Inserted(
      s: System, id: nat, r: Request, wallet: Option<WalletId>, now: int, outcome: Outcome): System
  {
    var stage := if outcome == Done then Claimed else Replied(Failed(Database));
    var rows := if outcome == Lost then s.ledger else Claim(s.ledger, wallet, r.key, r.details, now);
    s.(ledger := rows, handlers := s.handlers[id := Handler(r, stage)])
  }

  lemma InsertRuns(
      c: Chain, s: System, id: nat, r: Request, wallet: Option<WalletId>, now: int, outcome: Outcome, rest: seq<Event>)
    requires id in s.handlers && s.handlers[id] == Handler(r, Unclaimed) && r.signed.Some?
    ensures Run(c, s, [Insert(id, wallet, now, outcome)] + rest)
      == Run(c, Inserted(s, id, r, wallet, now, outcome), rest)
  {
    var es := [Insert(id, wallet, now, outcome)] + rest;
    RunStep(c, s, es[0], es);
    assert es[1..] == rest;
  }

  /** The whole state an uninterrupted attempt leaves, from any state whatever. */
  lemma AttemptRuns(c: Chain, s: System, id: nat, r: Request, wallet: Option<WalletId>, now: int)
    requires id !in s.handlers && r.signed.Some? && c.verifies(r.signed.value)
    ensures Run(c, s, Attempt(s, id, r, wallet, now)) == Some(System(
      AttemptLedger(c, s, r, wallet, now),
      s.handlers[id := Handler(r, Replied(AttemptAnswer(c, s, r)))],
      s.relayed + AttemptRelays(s, r),
      s.executed))
  {
    hide Step, Enabled;
    var finish := [Validate(id), Broadcast(id, true, true), Mark(id, Done)];
    var t := System(
      Claim(s.ledger, wallet, r.key, r.details, now), s.handlers[id := Handler(r, Claimed)], s.relayed, s.executed);
    LookupRuns(c, s, id, r, Attempt(s, id, r, wallet, now)[2..]);
    if r.key in s.ledger && s.ledger[r.key].signature.Some? {
      assert s.relayed + {} == s.relayed;
    } else {
      AttemptFinishes(c, s, t, id, r, wallet, now);
      FinishRuns(c, t, id);
      if r.key !in s.ledger {
        InsertRuns(c, Looked(s, id, r), id, r, wallet, now, Done, finish);
        assert Looked(s, id, r).handlers[id := Handler(r, Claimed)] == t.handlers;
      } else {
        assert Looked(s, id, r) == t;
      }
      assert t.handlers[id := Handler(r, Replied(AttemptAnswer(c, s, r)))]
        == s.handlers[id := Handler(r, Replied(AttemptAnswer(c, s, r)))];
    }
  }

  lemma AttemptFinishes(
      c: Chain, s: System, t: System, id: nat, r: Request, wallet: Option<WalletId>, now: int)
    requires id !in s.handlers && r.signed.Some?
    requires r.key in s.ledger ==> s.ledger[r.key].signature.None?
    requires t == System(
      Claim(s.ledger, wallet, r.key, r.details, now), s.handlers[id := Handler(r, Claimed)], s.relayed, s.executed)
    ensures Finished(c, t, id) == System(
      AttemptLedger(c, s, r, wallet, now),
      s.handlers[id := Handler(r, Replied(AttemptAnswer(c, s, r)))],
      s.relayed + AttemptRelays(s, r),
      s.executed)
  {
    ClaimTakesNoSignature(s.ledger, wallet, r.key, r.details, now, c.signatureOf(r.signed.value));
  }

  /** An accepted attempt on a new key files the row under the sender's wallet, at that time. */
  lemma AttemptFiles(c: Chain, s: System, id: nat, r: Request, wallet: Option<WalletId>, now: int)
    requires id !in s.handlers && r.signed.Some? && c.verifies(r.signed.value) && r.key !in s.ledger
    ensures
      var t := Run(c, s, Attempt(s, id, r, wallet, now));
      var signature := c.signatureOf(r.signed.value);
      && t.Some? && id in t.value.handlers
      && (SignatureTaken(s.ledger, r.key, signature) ==>
        t.value.ledger == s.ledger[r.key := Row(wallet, r.details, now, None, Pending)])
      && (!SignatureTaken(s.ledger, r.key, signature) ==>
        && t.value.ledger == s.ledger[r.key := Row(wallet, r.details, now, Some(signature), Submitted)]
        && t.value.handlers[id].stage == Replied(Accepted(signature, Submitted)))
  {
    AttemptRuns(c, s, id, r, wallet, now);
  }

  /**
   Bytes that do not verify are refused and never relayed, but only after their request has
   claimed the key.
   */
  lemma UnverifiedAttemptClaims(c: Chain, s: System, id: nat, r: Request, wallet: Option<WalletId>, now: int)
    requires id !in s.handlers && r.signed.Some? && !c.verifies(r.signed.value) && r.key !in s.ledger
    ensures
      Run(c, s, [Receive(id, r), Lookup(id, false), Insert(id, wallet, now, Done), Validate(id)]) == Some(s.(
        ledger := s.ledger[r.key := Row(wallet, r.details, now, None, Pending)],
        handlers := s.handlers[id := Handler(r, Replied(Failed(BadRequest)))]))
  {
    var t := Inserted(Looked(s, id, r), id, r, wallet, now, Done);
    LookupRuns(c, s, id, r, [Insert(id, wallet, now, Done), Validate(id)]);
    InsertRuns(c, Looked(s, id, r), id, r, wallet, now, Done, [Validate(id)]);
    assert [Receive(id, r), Lookup(id, false)] + [Insert(id, wallet, now, Done), Validate(id)]
      == [Receive(id, r), Lookup(id, false), Insert(id, wallet, now, Done), Validate(id)];
    assert [Insert(id, wallet, now, Done)] + [Validate(id)] == [Insert(id, wallet, now, Done), Validate(id)];
    RunStep(c, t, Validate(id), [Validate(id)]);
    assert [Validate(id)][1..] == [];
    assert Step(c, t, Validate(id)).handlers == s.handlers[id := Handler(r, Replied(Failed(BadRequest)))];
  }

  /** No other key's verifying request carries this request's signature. */
  ghost predicate OwnSignature(c: Chain, requests: set<Request>, r: Request)
    requires r.signed.Some?
  {
    forall q :: q in requests && q.key != r.key && q.signed.Some? && c.verifies(q.signed.value) ==>
      c.signatureOf(q.signed.value) != c.signatureOf(r.signed.value)
  }

  /**
   Wherever earlier attempts stopped, one uninterrupted retry ends with the row submitted
   under the retry's own signature and that signature returned.
   */
  lemma RetryRecovers(c: Chain, s: System, id: nat, r: Request, wallet: Option<WalletId>, now: int)
    requires Reachable(c, s) && id !in s.handlers && r.signed.Some? && c.verifies(r.signed.value)
    requires Agree(c, Requests(s) + {r}) && OwnSignature(c, Requests(s), r)
    ensures
      var t := Run(c, s, Attempt(s, id, r, wallet, now));
      var signature := c.signatureOf(r.signed.value);
      && t.Some? && Answered(t.value, id, signature)
      && r.key in t.value.ledger
      && t.value.ledger[r.key].signature == Some(signature)
      && t.value.ledger[r.key].status == Submitted
  {
    ReachableInv(c, s);
    AttemptRuns(c, s, id, r, wallet, now);
    RunExtends(c, s, Attempt(s, id, r, wallet, now));
    var signature := c.signatureOf(r.signed.value);
    if r.key in s.ledger && s.ledger[r.key].signature.Some? {
      assert RowInv(c, s, r.key);
      EvidenceMatches(c, s, r, s.ledger[r.key].signature.value);
    }
    forall k | k in s.ledger && k != r.key ensures s.ledger[k].signature != Some(signature) {
      assert RowInv(c, s, k);
      if s.ledger[k].signature.Some? {
        var a :| a in s.handlers && EvidenceFrom(c, s, a, k, s.ledger[k].signature.value);
        assert RelayedInv(c, s, s.handlers[a].request.signed.value);
        assert s.handlers[a].request in Requests(s);
      }
    }
    RunKeepsInv(c, s, Attempt(s, id, r, wallet, now));
    var t := Run(c, s, Attempt(s, id, r, wallet, now)).value;
    assert RowInv(c, t, r.key);
  }

  // ---- a retry with other bytes ----

  /** An attempt whose broadcast reached the network and whose acknowledgement was lost. */
  ghost function Interrupted(p: Request): seq<Event> {
    [Receive(0, p), Lookup(0, false), Insert(0, None, 0, Done), Validate(0), Broadcast(0, true, false)]
  }

  ghost function Stopped(p: Request): System
    requires p.signed.Some?
  {
    System(
      map[p.key := Row(None, p.details, 0, None, Pending)], map[0 := Handler(p, Replied(Failed(Network)))],
      {p.signed.value}, [])
  }

  ghost function BroadcastLost(s: System, id: nat): System
    requires At(s, id, Claimed)
  {
    var r := s.handlers[id].request;
    s.(
      handlers := s.handlers[id := Handler(r, Replied(Failed(Network)))],
      relayed := s.relayed + {r.signed.value})
  }

  lemma LostBroadcastRuns(c: Chain, s: System, id: nat)
    requires At(s, id, Claimed) && c.verifies(s.handlers[id].request.signed.value)
    ensures Run(c, s, [Validate(id), Broadcast(id, true, false)]) == Some(BroadcastLost(s, id))
  {
    var es := [Validate(id), Broadcast(id, true, false)];
    var t := Step(c, s, es[0]);
    RunStep(c, s, es[0], es);
    RunStep(c, t, es[1], es[1..]);
    assert Step(c, t, es[1]) == BroadcastLost(s, id);
  }

  lemma InterruptedRuns(c: Chain, p: Request)
    requires p.signed.Some? && c.verifies(p.signed.value)
    ensures Run(c, INITIAL, Interrupted(p)) == Some(Stopped(p))
  {
    hide Run, Step, Enabled;
    var end := [Validate(0), Broadcast(0, true, false)];
    var s := System(map[], map[0 := Handler(p, Unclaimed)], {}, []);
    var t := System(
      map[p.key := Row(None, p.details, 0, None, Pending)], map[0 := Handler(p, Claimed)], {}, []);
    assert Interrupted(p) == [Receive(0, p), Lookup(0, false)] + ([Insert(0, None, 0, Done)] + end);
    LookupRuns(c, INITIAL, 0, p, [Insert(0, None, 0, Done)] + end);
    assert Looked(INITIAL, 0, p) == s;
    InsertRuns(c, s, 0, p, None, 0, Done, end);
    assert Inserted(s, 0, p, None, 0, Done) == t;
    LostBroadcastRuns(c, t, 0);
    assert BroadcastLost(t, 0) == Stopped(p);
  }

  /** The retry, after the first attempt has stopped, and then both transactions executed. */
  ghost function RetryThenExecute(p: Request, q: Request): seq<Event>
    requires p.signed.Some? && q.signed.Some?
  {
    Attempt(Stopped(p), 1, q, None, 0) + [Execute(p.signed.value), Execute(q.signed.value)]
  }

  lemma ExecuteRuns(c: Chain, s: System, a: Bytes, b: Bytes)
    requires a in s.relayed && b in s.relayed && s.executed == [] && c.signatureOf(a) != c.signatureOf(b)
    ensures Run(c, s, [Execute(a), Execute(b)]) == Some(s.(executed := [a, b]))
  {
    var es := [Execute(a), Execute(b)];
    RunStep(c, s, es[0], es);
    assert Step(c, s, es[0]) == s.(executed := [a]);
    RunStep(c, s.(executed := [a]), es[1], es[1..]);
    assert [a] + [b] == [a, b];
  }

  lemma RetryExecutesTwice(c: Chain, p: Request, q: Request)
    requires SameKeyBothVerify(c, p, q) && c.signatureOf(p.signed.value) != c.signatureOf(q.signed.value)
    ensures
      var b := c.signatureOf(q.signed.value);
      Run(c, Stopped(p), RetryThenExecute(p, q)) == Some(System(
        map[p.key := Row(None, p.details, 0, Some(b), Submitted)],
        Pair(p, Replied(Failed(Network)), q, Replied(Accepted(b, Submitted))),
        {p.signed.value, q.signed.value},
        [p.signed.value, q.signed.value]))
  {
    AttemptRuns(c, Stopped(p), 1, q, None, 0);
    var t := Run(c, Stopped(p), Attempt(Stopped(p), 1, q, None, 0)).value;
    RunConcat(c, Stopped(p), Attempt(Stopped(p), 1, q, None, 0), [Execute(p.signed.value), Execute(q.signed.value)]);
    assert {p.signed.value} + {q.signed.value} == {p.signed.value, q.signed.value};
    assert t.ledger == map[p.key := Row(None, p.details, 0, Some(c.signatureOf(q.signed.value)), Submitted)];
    assert t.handlers == Pair(p, Replied(Failed(Network)), q, Replied(AttemptAnswer(c, Stopped(p), q)));
    ExecuteRuns(c, t, p.signed.value, q.signed.value);
  }

  /** From s on, some continuation with these requests executes twice under one key. */
  ghost predicate CanExecuteTwice(c: Chain, s: System, workload: set<Request>) {
    exists es :: Run(c, s, es).Some? && Requests(Run(c, s, es).value) <= workload && !AtMostOnce(Run(c, s, es).value)
  }

  /**
   A retry that follows an attempt lost after its broadcast is safe exactly when its bytes
   carry the same signature: the two need not race.
   */
  lemma {:induction false} RetrySafeIffSameSignature(c: Chain, p: Request, q: Request)
    requires SameKeyBothVerify(c, p, q)
    ensures Run(c, INITIAL, Interrupted(p)) == Some(Stopped(p))
    ensures CanExecuteTwice(c, Stopped(p), {p, q}) <==>
      c.signatureOf(p.signed.value) != c.signatureOf(q.signed.value)
  {
    InterruptedRuns(c, p);
    if c.signatureOf(p.signed.value) != c.signatureOf(q.signed.value) {
      RetryExecutesTwice(c, p, q);
      var t := Run(c, Stopped(p), RetryThenExecute(p, q)).value;
      assert t.handlers[0].request == p && t.handlers[1].request == q;
      TwiceExecuted(t, p.key, 0, 1);
    } else {
      assert Agree(c, {p, q});
      assert Reachable(c, Stopped(p));
      ReachableInv(c, Stopped(p));
      forall es | Run(c, Stopped(p), es).Some? && Requests(Run(c, Stopped(p), es).value) <= {p, q}
        ensures AtMostOnce(Run(c, Stopped(p), es).value)
      {
        RunKeepsInv(c, Stopped(p), es);
        AgreeMakesAtMostOnce(c, Run(c, Stopped(p), es).value);
      }
    }
  }
}
