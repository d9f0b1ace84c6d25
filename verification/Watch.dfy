/**
 The `watch` polling loop (packages/xend/lib/src/xend_wallet.dart:322-348) and the status
 translation it uses (packages/xend/lib/src/mappings.dart:42-74), over the log of answers
 and clock readings one subscription sees.
 */
module Watch {
  import opened Numerals
  import opened Wrappers

  datatype TxCommitment = Processed | Confirmed | Finalized

  datatype TxStatus = TxStatus(state: string, commitment: Option<TxCommitment>) {
    predicate IsFailed() { state == "failed" }
  }

  /** An answer and the clock at the deadline check after it, or an error from the backend. */
  datatype Poll = Answer(raw: string, now: int) | BackendError

  /** Why the stream is at rest: still waiting for the next poll, completed, or ended by an error. */
  datatype Rest = Waiting | Completed | Errored

  function FromBackend(raw: string): (s: TxStatus)
    ensures s.IsFailed() <==> s.commitment == None
    ensures s.state == "finalized" <==> s.commitment == Some(Finalized)
    ensures s.state == "confirmed" <==> s.commitment == Some(Confirmed)
    ensures s.state == "pending" <==> s.commitment == Some(Processed)
    ensures raw !in {"finalized", "confirmed", "failed"} ==> s.state == "pending" && s.commitment == Some(Processed)
  {
    if raw == "finalized" then TxStatus("finalized", Some(Finalized))
    else if raw == "confirmed" then TxStatus("confirmed", Some(Confirmed))
    else if raw == "failed" then TxStatus("failed", None)
    else TxStatus("pending", Some(Processed))
  }

  /** What the backend reports (backend/src/handlers/tx.rs:172-177); None stands for failed. */
  function Reported(c: Option<TxCommitment>): string {
    match c
    case Some(Processed) => "processed"
    case Some(Confirmed) => "confirmed"
    case Some(Finalized) => "finalized"
    case None => "failed"
  }

  /** Every reported commitment is read back as itself, and nothing else counts as progress. */
  lemma ReportReadsBack(c: Option<TxCommitment>, raw: string)
    ensures FromBackend(Reported(c)).commitment == c
    ensures FromBackend(raw).commitment != Some(Processed) ==> raw == Reported(FromBackend(raw).commitment)
  {
    assert "processed" != "finalized" && "processed" != "confirmed";
    assert "processed"[0] != "failed"[0] && "confirmed"[0] != "finalized"[0];
  }

  // ---- what the stream should be ----

  predicate Stops(p: Poll, deadline: int) {
    p.BackendError? || p.raw in {"failed", "finalized"} || p.now > deadline
  }

  /** Polls made: up to and including the first that stops the loop. */
  function Used(polls: seq<Poll>, deadline: int): (n: nat)
    ensures n <= |polls|
    ensures forall i :: 0 <= i < n - 1 ==> !Stops(polls[i], deadline)
    ensures n < |polls| ==> n > 0 && Stops(polls[n - 1], deadline)
  {
    if polls == [] then 0 else
      var n := Used(polls[..|polls| - 1], deadline);
      assert n > 0 ==> polls[n - 1] == polls[..|polls| - 1][n - 1];
      if n < |polls| - 1 || (n > 0 && Stops(polls[n - 1], deadline)) then n else |polls|
  }

  function Observed(polls: seq<Poll>): seq<TxStatus> {
    if polls == [] then [] else
      var p := polls[|polls| - 1];
      Observed(polls[..|polls| - 1]) + if p.Answer? then [FromBackend(p.raw)] else []
  }

  /** The observations with repeats of an equal commitment removed. */
  function Changes(s: seq<TxStatus>): seq<TxStatus> {
    if s == [] then [] else
      var n := |s| - 1;
      Changes(s[..n]) + if n > 0 && s[n - 1].commitment == s[n].commitment then [] else [s[n]]
  }

  function Emissions(polls: seq<Poll>, deadline: int): seq<TxStatus> {
    Changes(Observed(polls[..Used(polls, deadline)]))
  }

  // ---- the loop ----

  method Watch(polls: seq<Poll>, start: int, timeout: int) returns (emitted: seq<TxStatus>, made: nat, rest: Rest)
    ensures emitted == Emissions(polls, start + timeout)
    ensures made == Used(polls, start + timeout)
    ensures rest.Waiting? ==> made == |polls|
    ensures rest.Errored? <==> made > 0 && polls[made - 1].BackendError?
    ensures rest.Completed? <==> made > 0 && polls[made - 1].Answer? && Stops(polls[made - 1], start + timeout)
  {
    hide FromBackend, Used, Observed, Changes, Stops;
    var deadline := start + timeout;
    var lastEmitted: Option<TxCommitment> := None;
    var hasEmitted := false;
    emitted, made := [], 0;
    NothingSeen(polls);
    while made < |polls|
      invariant made <= |polls|
      invariant forall i :: 0 <= i < made ==> !Stops(polls[i], deadline)
      invariant emitted == Changes(Observed(polls[..made]))
      invariant hasEmitted <==> Observed(polls[..made]) != []
      invariant hasEmitted ==> lastEmitted == LastOf(Observed(polls[..made])).commitment && lastEmitted.Some?
    {
      ghost var seen := Observed(polls[..made]);
      ErrorStops(polls[made], deadline);
      ObservedStep(polls, made);
      UsedAt(polls, deadline, made);
      if polls[made].BackendError? {
        return emitted, made + 1, Errored;
      }
      var status := FromBackend(polls[made].raw);
      AnswerStops(polls[made], deadline);
      ChangesStep(seen, status);
      if !hasEmitted || status.commitment != lastEmitted || status.IsFailed() {
        emitted := emitted + [status];
        hasEmitted := true;
        lastEmitted := status.commitment;
      }
      if status.IsFailed() || status.state == "finalized" {
        return emitted, made + 1, Completed;
      }
      if polls[made].now > deadline {
        return emitted, made + 1, Completed;
      }
      made := made + 1;
    }
    assert polls[..made] == polls;
    UsedAll(polls, deadline);
    if made > 0 { ErrorStops(polls[made - 1], deadline); }
    return emitted, made, Waiting;
  }

  lemma ErrorStops(p: Poll, deadline: int)
    ensures p.BackendError? ==> Stops(p, deadline)
  {
  }

  lemma AnswerStops(p: Poll, deadline: int)
    requires p.Answer?
    ensures Stops(p, deadline) <==>
      FromBackend(p.raw).IsFailed() || FromBackend(p.raw).state == "finalized" || p.now > deadline
  {
  }

  ghost function LastOf(s: seq<TxStatus>): TxStatus
    requires s != []
  {
    s[|s| - 1]
  }

  lemma NothingSeen(polls: seq<Poll>)
    ensures Observed(polls[..0]) == [] && Changes([]) == []
  {
  }

  lemma ObservedStep(polls: seq<Poll>, i: nat)
    requires i < |polls|
    ensures Observed(polls[..i + 1]) ==
      if polls[i].Answer? then Observed(polls[..i]) + [FromBackend(polls[i].raw)] else Observed(polls[..i])
  {
    assert polls[..i + 1][..i] == polls[..i];
  }

  lemma ChangesStep(s: seq<TxStatus>, x: TxStatus)
    ensures Changes(s + [x]) ==
      Changes(s) + if s != [] && LastOf(s).commitment == x.commitment then [] else [x]
  {
    assert (s + [x])[..|s|] == s;
  }

  lemma UsedAll(polls: seq<Poll>, deadline: int)
    requires forall k :: 0 <= k < |polls| ==> !Stops(polls[k], deadline)
    ensures Used(polls, deadline) == |polls|
  {
  }

  lemma {:induction false} UsedAt(polls: seq<Poll>, deadline: int, i: nat)
    requires i < |polls| && forall k :: 0 <= k < i ==> !Stops(polls[k], deadline)
    ensures Stops(polls[i], deadline) ==> Used(polls, deadline) == i + 1
    ensures Used(polls, deadline) >= i + 1
  {
  }

  // ---- what a listener may rely on ----

  /**
   Every poll emits its own status, unless the latest emission already carries that
   commitment; a poll that fails emits nothing.
   */
  lemma EachPollEmits(polls: seq<Poll>, i: nat)
    requires i < |polls|
    ensures
      var before, after := Changes(Observed(polls[..i])), Changes(Observed(polls[..i + 1]));
      match polls[i]
      case BackendError => after == before
      case Answer(raw, _) =>
        if before != [] && LastOf(before).commitment == FromBackend(raw).commitment then after == before
        else after == before + [FromBackend(raw)]
  {
    hide FromBackend, Observed, Changes;
    var seen := Observed(polls[..i]);
    ObservedStep(polls, i);
    if polls[i].Answer? { ChangesStep(seen, FromBackend(polls[i].raw)); }
    if seen != [] { LatestEmissionIsCurrent(seen); } else { NothingSeen(polls); }
  }

  /** The latest emission always carries the latest observed commitment. */
  lemma {:induction false} LatestEmissionIsCurrent(s: seq<TxStatus>)
    requires s != []
    ensures Changes(s) != [] && Changes(s)[|Changes(s)| - 1].commitment == s[|s| - 1].commitment
  {
    if |s| > 1 {
      LatestEmissionIsCurrent(s[..|s| - 1]);
    }
  }

  lemma {:induction false} NoRepeats(s: seq<TxStatus>)
    ensures forall i :: 0 <= i < |Changes(s)| - 1 ==> Changes(s)[i].commitment != Changes(s)[i + 1].commitment
  {
    if |s| > 1 {
      NoRepeats(s[..|s| - 1]);
      LatestEmissionIsCurrent(s[..|s| - 1]);
    }
  }

  function Rank(s: TxStatus): nat {
    match s.commitment
    case Some(Processed) => 0
    case Some(Confirmed) => 1
    case Some(Finalized) => 2
    case None => 3
  }

  ghost predicate NeverRegresses(s: seq<TxStatus>) {
    forall i, j :: 0 <= i < j < |s| ==> Rank(s[i]) <= Rank(s[j])
  }

  ghost predicate Advancing(s: seq<TxStatus>) {
    forall i, j :: 0 <= i < j < |s| ==> Rank(s[i]) < Rank(s[j])
  }

  lemma AdvanceStep(front: seq<TxStatus>, x: TxStatus)
    requires Advancing(front) && (front != [] ==> Rank(LastOf(front)) < Rank(x))
    ensures Advancing(front + [x])
  {
    hide Rank;
    forall i | 0 <= i < |front| ensures Rank(front[i]) < Rank(x) {
      assert i < |front| - 1 ==> Rank(front[i]) < Rank(LastOf(front));
    }
  }

  lemma {:induction false} ChangesAdvance(s: seq<TxStatus>)
    requires NeverRegresses(s)
    ensures Advancing(Changes(s))
    ensures s != [] ==> Changes(s) != [] && LastOf(Changes(s)).commitment == LastOf(s).commitment
  {
    if s != [] {
      var front, x := s[..|s| - 1], LastOf(s);
      ChangesAdvance(front);
      ChangesStep(front, x);
      assert s == front + [x];
      LatestEmissionIsCurrent(s);
      if front == [] || LastOf(front).commitment != x.commitment {
        assert front != [] ==> Rank(LastOf(front)) < Rank(x);
        hide *;
        AdvanceStep(Changes(front), x);
      }
    }
  }

  lemma {:induction false} ObservedBeforeStop(polls: seq<Poll>, deadline: int)
    requires forall i :: 0 <= i < |polls| - 1 ==> !Stops(polls[i], deadline)
    ensures forall i :: 0 <= i < |Observed(polls)| - 1 ==> Rank(Observed(polls)[i]) <= 1
    ensures (forall i :: 0 <= i < |polls| ==> !Stops(polls[i], deadline)) ==>
      forall i :: 0 <= i < |Observed(polls)| ==> Rank(Observed(polls)[i]) <= 1
  {
    if polls != [] {
      ObservedBeforeStop(polls[..|polls| - 1], deadline);
    }
  }

  lemma {:induction false} ChangesKeepRanks(s: seq<TxStatus>)
    requires forall i :: 0 <= i < |s| - 1 ==> Rank(s[i]) <= 1
    ensures forall i :: 0 <= i < |Changes(s)| - 1 ==> Rank(Changes(s)[i]) <= 1
    ensures (forall i :: 0 <= i < |s| ==> Rank(s[i]) <= 1) ==>
      forall i :: 0 <= i < |Changes(s)| ==> Rank(Changes(s)[i]) <= 1
  {
    if s != [] {
      ChangesKeepRanks(s[..|s| - 1]);
    }
  }

  /** If the backend's answers never regress, a listener sees at most three, each further on. */
  lemma AtMostThreeEmissions(polls: seq<Poll>, deadline: int)
    requires NeverRegresses(Observed(polls[..Used(polls, deadline)]))
    ensures Advancing(Emissions(polls, deadline)) && |Emissions(polls, deadline)| <= 3
  {
    var made := polls[..Used(polls, deadline)];
    ObservedBeforeStop(made, deadline);
    ChangesAdvance(Observed(made));
    ChangesKeepRanks(Observed(made));
    var e := Emissions(polls, deadline);
    if |e| > 2 {
      assert Rank(e[0]) < Rank(e[1]);
      assert Rank(e[1]) < Rank(e[2]);
    }
  }

  // ---- how long it polls ----

  /** Each answer comes at least one poll interval after the one before. */
  ghost predicate Clocked(polls: seq<Poll>, start: int, interval: int) {
    && (forall i :: 0 <= i < |polls| && polls[i].Answer? ==> polls[i].now >= start)
    && (forall i :: 0 < i < |polls| && polls[i].Answer? && polls[i - 1].Answer? ==>
      polls[i].now >= polls[i - 1].now + interval)
  }

  lemma {:induction false} AnswerTime(polls: seq<Poll>, start: int, interval: nat, i: nat)
    requires Clocked(polls, start, interval) && i < |polls| && forall k :: 0 <= k <= i ==> polls[k].Answer?
    ensures polls[i].now >= start + i * interval
  {
    if i > 0 {
      AnswerTime(polls, start, interval, i - 1);
      assert i * interval == (i - 1) * interval + interval;
    }
  }

  lemma FloorOf(m: nat, interval: nat, timeout: nat)
    requires interval > 0
    ensures m * interval <= timeout <==> m <= timeout / interval
  {
    var k := timeout / interval;
    DivMod(timeout, interval);
    if m <= k {
      MulMono(m, interval, k, interval);
    } else {
      MulMono(k + 1, interval, m, interval);
      assert (k + 1) * interval == k * interval + interval;
    }
  }

  lemma PollBound(polls: seq<Poll>, start: int, interval: nat, timeout: nat)
    requires interval > 0 && Clocked(polls, start, interval)
    ensures Used(polls, start + timeout) <= timeout / interval + 2
  {
    hide Used;
    var n := Used(polls, start + timeout);
    if n >= 2 {
      AnswerTime(polls, start, interval, n - 2);
      FloorOf(n - 2, interval, timeout);
    }
  }

  function Slow(start: int, interval: nat, n: nat): seq<Poll> {
    seq(n, i requires 0 <= i < n => Answer("processed", start + i * interval))
  }

  /** A backend that answers at once and never past "processed" makes it poll that often. */
  lemma PollBoundReached(start: int, interval: nat, timeout: nat)
    requires interval > 0
    ensures
      var polls := Slow(start, interval, timeout / interval + 3);
      Clocked(polls, start, interval) && Used(polls, start + timeout) == timeout / interval + 2
  {
    hide Used;
    var k := timeout / interval;
    var polls := Slow(start, interval, k + 3);
    forall i | 0 <= i < |polls| ensures polls[i].now >= start {
      MulMono(0, 0, i, interval);
    }
    forall i | 0 < i < |polls| ensures polls[i].now >= polls[i - 1].now + interval {
      assert i * interval == (i - 1) * interval + interval;
    }
    forall i | 0 <= i <= k ensures !Stops(polls[i], start + timeout) {
      FloorOf(i, interval, timeout);
    }
    FloorOf(k + 1, interval, timeout);
    UsedAt(polls, start + timeout, k + 1);
  }
}
