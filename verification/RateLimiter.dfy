/**
 The fixed-window rate limiter (backend/src/gateway/rate_limit.rs) and its bounds over
 whole histories of calls. Instants and durations are nanoseconds.
 */
module RateLimiter {

  type u32 = x: int | 0 <= x < 0x1_0000_0000

  const NANOS_PER_SEC := 1_000_000_000

  datatype Window = Window(started: nat, count: u32)

  datatype Verdict = Admitted | Refused(retryAfter: nat)

  datatype Limits = Limits(max: u32, window: nat)

  type Windows = map<string, Window>

  /** `duration_since` and `saturating_sub` stop at zero. */
  function Monus(a: nat, b: nat): nat {
    if a >= b then a - b else 0
  }

  /** The caller's window once a call at `now` has created or restarted it. */
  function Current(l: Limits, ws: Windows, caller: string, now: nat): Window {
    var w := if caller in ws then ws[caller] else Window(now, 0);
    if Monus(now, w.started) >= l.window then Window(now, 0) else w
  }

  function Judge(l: Limits, w: Window, now: nat): Verdict {
    if w.count >= l.max then Refused(Monus(l.window, Monus(now, w.started)) / NANOS_PER_SEC + 1) else Admitted
  }

  function Recorded(l: Limits, ws: Windows, caller: string, now: nat): Windows {
    var w := Current(l, ws, caller, now);
    ws[caller := if Judge(l, w, now).Admitted? then w.(count := w.count + 1) else w]
  }

  class Limiter {
    const limits: Limits
    var windows: Windows

    constructor (limits: Limits)
      ensures this.limits == limits && windows == map[]
    {
      this.limits := limits;
      windows := map[];
    }

    method Record(caller: string, now: nat) returns (verdict: Verdict)
      modifies this
      ensures verdict == Judge(limits, Current(limits, old(windows), caller, now), now)
      ensures windows == Recorded(limits, old(windows), caller, now)
    {
      var window := if caller in windows then windows[caller] else Window(now, 0);
      if Monus(now, window.started) >= limits.window {
        window := Window(now, 0);
      }
      if window.count >= limits.max {
        windows := windows[caller := window];
        var remaining := Monus(limits.window, Monus(now, window.started));
        return Refused(remaining / NANOS_PER_SEC + 1);
      }
      window := window.(count := window.count + 1);
      windows := windows[caller := window];
      return Admitted;
    }
  }

  // ---- histories ----

  datatype Call = Call(caller: string, now: nat)

  /** Calls in lock order, with clock readings that never go back. */
  ghost predicate Ordered(h: seq<Call>) {
    forall i, j :: 0 <= i < j < |h| ==> h[i].now <= h[j].now
  }

  ghost function After(l: Limits, h: seq<Call>): Windows {
    if h == [] then map[]
    else Recorded(l, After(l, h[..|h| - 1]), h[|h| - 1].caller, h[|h| - 1].now)
  }

  ghost function VerdictAt(l: Limits, h: seq<Call>, i: nat): Verdict
    requires i < |h|
  {
    Judge(l, Current(l, After(l, h[..i]), h[i].caller, h[i].now), h[i].now)
  }

  /** Admitted calls of one caller with lo <= now < hi. */
  ghost function Count(l: Limits, h: seq<Call>, caller: string, lo: int, hi: int): nat {
    if h == [] then 0 else
      var i := |h| - 1;
      Count(l, h[..i], caller, lo, hi) +
      if h[i].caller == caller && lo <= h[i].now < hi && VerdictAt(l, h, i).Admitted? then 1 else 0
  }

  // ---- other callers do not matter ----

  ghost function Only(h: seq<Call>, caller: string): seq<Call> {
    if h == [] then []
    else Only(h[..|h| - 1], caller) + if h[|h| - 1].caller == caller then [h[|h| - 1]] else []
  }

  ghost predicate SameFor(a: Windows, b: Windows, caller: string) {
    (caller in a <==> caller in b) && (caller in a ==> a[caller] == b[caller])
  }

  lemma {:induction false} CallersIndependent(l: Limits, h: seq<Call>, caller: string, lo: int, hi: int)
    ensures SameFor(After(l, h), After(l, Only(h, caller)), caller)
    ensures Count(l, h, caller, lo, hi) == Count(l, Only(h, caller), caller, lo, hi)
  {
    if h != [] {
      var front, call := h[..|h| - 1], h[|h| - 1];
      CallersIndependent(l, front, caller, lo, hi);
      if call.caller == caller {
        var o := Only(h, caller);
        assert o[..|o| - 1] == Only(front, caller);
      } else {
        assert Only(h, caller) == Only(front, caller);
      }
    }
  }

  // ---- the bound over an interval ----

  lemma {:induction false} NoneBefore(l: Limits, h: seq<Call>, caller: string, lo: int, hi: int)
    requires forall i :: 0 <= i < |h| ==> h[i].now < lo
    ensures Count(l, h, caller, lo, hi) == 0
  {
    if h != [] {
      NoneBefore(l, h[..|h| - 1], caller, lo, hi);
    }
  }

  lemma {:induction false} NothingUnderZero(l: Limits, h: seq<Call>, caller: string, lo: int, hi: int)
    requires l.max == 0
    ensures Count(l, h, caller, lo, hi) == 0
  {
    if h != [] {
      NothingUnderZero(l, h[..|h| - 1], caller, lo, hi);
    }
  }

  /** One more call of the caller, as `Pressure` needs it. */
  lemma CountStep(l: Limits, h: seq<Call>, caller: string, lo: int, hi: int)
    requires h != [] && Ordered(h) && l.max >= 1
    requires caller in After(l, h[..|h| - 1]) ==> After(l, h[..|h| - 1])[caller].count <= l.max
    ensures
      var front, now := h[..|h| - 1], h[|h| - 1].now;
      var before, count := After(l, front), Count(l, front, caller, lo, hi);
      if h[|h| - 1].caller != caller then SameFor(After(l, h), before, caller) && Count(l, h, caller, lo, hi) == count
      else
        && caller in After(l, h)
        && count <= Count(l, h, caller, lo, hi) <= count + 1
        && (now < lo ==> Count(l, h, caller, lo, hi) == count)
        && (if caller !in before || Monus(now, before[caller].started) >= l.window then
              After(l, h)[caller] == Window(now, 1)
            else if before[caller].count == l.max then
              After(l, h)[caller] == before[caller] && Count(l, h, caller, lo, hi) == count
            else After(l, h)[caller] == before[caller].(count := before[caller].count + 1))
  {
  }

  ghost function Span(l: Limits, j: nat): nat { j * l.window }

  ghost function Quota(l: Limits, j: nat): nat { l.max * j }

  lemma SpanStep(l: Limits, j: nat)
    ensures Span(l, 0) == 0 && Quota(l, 0) == 0
    ensures Span(l, j + 1) == Span(l, j) + l.window && Quota(l, j + 1) == Quota(l, j) + l.max
  {
    assert (j + 1) * l.window == j * l.window + l.window;
    assert l.max * (j + 1) == l.max * j + l.max;
  }

  /** Counting from `lo`, each full window back from the current one adds at most `max`. */
  lemma {:induction false} Pressure(l: Limits, h: seq<Call>, caller: string, lo: int, hi: int, j: nat)
    requires Ordered(h) && l.max >= 1
    ensures caller !in After(l, h) ==> Count(l, h, caller, lo, hi) == 0
    ensures caller in After(l, h) ==>
      var w := After(l, h)[caller];
      && h != [] && 1 <= w.count <= l.max && w.started <= h[|h| - 1].now
      && (w.started - lo < Span(l, j) ==> Count(l, h, caller, lo, hi) <= w.count + Quota(l, j) - 1)
    decreases |h|
  {
    if h == [] {
      return;
    }
    hide Count, After, Current, Judge, Recorded, Span, Quota;
    var front, now := h[..|h| - 1], h[|h| - 1].now;
    Pressure(l, front, caller, lo, hi, j);
    CountStep(l, h, caller, lo, hi);
    if j == 0 {
      SpanStep(l, 0);
      if now < lo { NoneBefore(l, front, caller, lo, hi); }
    } else {
      SpanStep(l, j - 1);
      Pressure(l, front, caller, lo, hi, j - 1);
    }
  }

  /** At most this many admissions fit into a half-open interval of k windows. */
  ghost function Budget(l: Limits, k: nat): int {
    if l.max == 0 then 0 else (k + 1) * l.max - 1
  }

  lemma {:induction false} IntervalBound(l: Limits, h: seq<Call>, caller: string, lo: int, k: nat)
    requires Ordered(h)
    ensures Count(l, h, caller, lo, lo + k * l.window) <= Budget(l, k)
    decreases |h|
  {
    var hi := lo + k * l.window;
    if l.max == 0 {
      NothingUnderZero(l, h, caller, lo, hi);
    } else {
      assert (k + 1) * l.max == l.max * k + l.max && l.max * k >= 0;
      if h != [] && h[|h| - 1].now >= hi {
        IntervalBound(l, h[..|h| - 1], caller, lo, k);
      } else if h != [] {
        Pressure(l, h, caller, lo, hi, k);
      }
    }
  }

  // ---- the bound is reached ----

  ghost function Burst(caller: string, now: nat, n: nat): seq<Call> {
    seq(n, i => Call(caller, now))
  }

  /** One burst of `max` calls in each of k consecutive windows, after a late rush in the first. */
  ghost function Worst(l: Limits, caller: string, k: nat): seq<Call>
    requires l.max >= 1 && l.window >= 2
  {
    if k == 0 then [Call(caller, 0)] + Burst(caller, l.window - 1, l.max - 1)
    else Worst(l, caller, k - 1) + Burst(caller, k * l.window, l.max)
  }

  lemma {:induction false} BurstWithin(l: Limits, h: seq<Call>, caller: string, now: nat, n: nat, lo: int, hi: int)
    requires caller in After(l, h) && lo <= now < hi
    requires Monus(now, After(l, h)[caller].started) < l.window && After(l, h)[caller].count + n <= l.max
    ensures caller in After(l, h + Burst(caller, now, n))
    ensures After(l, h + Burst(caller, now, n))[caller] == After(l, h)[caller].(count := After(l, h)[caller].count + n)
    ensures Count(l, h + Burst(caller, now, n), caller, lo, hi) == Count(l, h, caller, lo, hi) + n
  {
    var g := h + Burst(caller, now, n);
    if n == 0 {
      assert g == h;
    } else {
      assert g[..|g| - 1] == h + Burst(caller, now, n - 1);
      BurstWithin(l, h, caller, now, n - 1, lo, hi);
    }
  }

  lemma {:induction false} BurstRestarts(l: Limits, h: seq<Call>, caller: string, now: nat, lo: int, hi: int)
    requires caller in After(l, h) && Monus(now, After(l, h)[caller].started) >= l.window
    requires lo <= now < hi && l.max >= 1 && l.window >= 1
    ensures caller in After(l, h + Burst(caller, now, l.max))
    ensures After(l, h + Burst(caller, now, l.max))[caller] == Window(now, l.max)
    ensures Count(l, h + Burst(caller, now, l.max), caller, lo, hi) == Count(l, h, caller, lo, hi) + l.max
  {
    var g := h + [Call(caller, now)];
    assert g[..|h|] == h;
    BurstWithin(l, g, caller, now, l.max - 1, lo, hi);
    assert g + Burst(caller, now, l.max - 1) == h + Burst(caller, now, l.max);
  }

  lemma {:induction false} WorstOrdered(l: Limits, caller: string, k: nat)
    requires l.max >= 1 && l.window >= 2
    ensures Ordered(Worst(l, caller, k))
    ensures forall i :: 0 <= i < |Worst(l, caller, k)| ==>
      Worst(l, caller, k)[i].now < (k + 1) * l.window && (k > 0 ==> Worst(l, caller, k)[i].now <= k * l.window)
  {
    assert (k + 1) * l.window == k * l.window + l.window;
    if k > 0 {
      WorstOrdered(l, caller, k - 1);
    }
  }

  lemma FirstCall(l: Limits, caller: string, hi: int)
    requires l.max >= 1 && l.window >= 2
    ensures After(l, [Call(caller, 0)]) == map[caller := Window(0, 1)]
    ensures Count(l, [Call(caller, 0)], caller, l.window - 1, hi) == 0
  {
    assert [Call(caller, 0)][..0] == [];
  }

  lemma {:induction false} WorstCounts(l: Limits, caller: string, k: nat, hi: int)
    requires l.max >= 1 && l.window >= 2 && k * l.window < hi && l.window - 1 < hi
    ensures caller in After(l, Worst(l, caller, k))
    ensures After(l, Worst(l, caller, k))[caller] == Window(k * l.window, l.max)
    ensures Count(l, Worst(l, caller, k), caller, l.window - 1, hi) == k * l.max + l.max - 1
  {
    hide Count, After;
    if k == 0 {
      FirstCall(l, caller, hi);
      BurstWithin(l, [Call(caller, 0)], caller, l.window - 1, l.max - 1, l.window - 1, hi);
      assert 0 * l.window == 0 && 0 * l.max == 0;
    } else {
      var s := (k - 1) * l.window;
      assert k * l.window == s + l.window && s >= 0;
      assert k * l.max == (k - 1) * l.max + l.max;
      WorstCounts(l, caller, k - 1, hi);
      BurstRestarts(l, Worst(l, caller, k - 1), caller, s + l.window, l.window - 1, hi);
    }
  }

  /** For k >= 1 the interval bound is attained, whatever the limits. */
  lemma BudgetAttained(l: Limits, caller: string, k: nat)
    requires l.max >= 1 && l.window >= 2 && k >= 1
    ensures Ordered(Worst(l, caller, k))
    ensures
      var lo := l.window - 1;
      Count(l, Worst(l, caller, k), caller, lo, lo + k * l.window) == Budget(l, k)
  {
    hide Count, After, Worst, Ordered;
    var lo := l.window - 1;
    WorstOrdered(l, caller, k);
    assert k * l.window >= l.window by { assert (k - 1) * l.window >= 0; }
    WorstCounts(l, caller, k, lo + k * l.window);
  }

  // ---- what "at most max per window" means ----

  /** Admissions in the half-open interval of one window's length from `lo`. */
  ghost function WindowCount(l: Limits, h: seq<Call>, caller: string, lo: int): nat {
    Count(l, h, caller, lo, lo + l.window)
  }

  /** Read as "in any interval as long as the window", the promise holds only for `max` up to 1. */
  lemma {:induction false} AnyWindowIffAtMostOne(l: Limits, caller: string)
    requires l.window >= 2
    ensures (forall h, lo: int :: Ordered(h) ==> WindowCount(l, h, caller, lo) <= l.max) <==> l.max <= 1
  {
    hide Count, Worst;
    if l.max <= 1 {
      forall h, lo: int | Ordered(h) ensures WindowCount(l, h, caller, lo) <= l.max {
        IntervalBound(l, h, caller, lo, 1);
      }
    } else {
      BudgetAttained(l, caller, 1);
      assert WindowCount(l, Worst(l, caller, 1), caller, l.window - 1) > l.max;
    }
  }

  /**
   The current window's count is the number of admissions since it started, and no call
   came after its end.
   */
  lemma {:induction false} CountSinceStart(l: Limits, h: seq<Call>, caller: string, lo: int, hi: int)
    requires Ordered(h) && l.window >= 1 && (h != [] ==> h[|h| - 1].now < hi)
    ensures caller !in After(l, h) ==> Count(l, h, caller, lo, hi) == 0
    ensures caller in After(l, h) ==>
      var w := After(l, h)[caller];
      && h != [] && w.started <= h[|h| - 1].now && w.count <= l.max
      && (lo == w.started ==> Count(l, h, caller, lo, hi) == w.count)
      && (lo >= w.started + l.window ==> Count(l, h, caller, lo, hi) == 0)
  {
    if h != [] {
      var front, now := h[..|h| - 1], h[|h| - 1].now;
      CountSinceStart(l, front, caller, lo, hi);
      if lo > now { NoneBefore(l, h, caller, lo, hi); }
    }
  }

  lemma {:induction false} CountUpTo(l: Limits, h: seq<Call>, i: nat, caller: string, lo: int, hi: int, later: int)
    requires Ordered(h) && i <= |h| && hi <= later && forall j :: i <= j < |h| ==> h[j].now >= hi
    ensures Count(l, h, caller, lo, hi) <= Count(l, h[..i], caller, lo, later)
    decreases |h|
  {
    if h != [] {
      var front := h[..|h| - 1];
      if i == |h| {
        assert h[..i] == h;
        CountUpTo(l, front, i - 1, caller, lo, hi, later);
        assert front[..i - 1] == front;
      } else {
        CountUpTo(l, front, i, caller, lo, hi, later);
        assert front[..i] == h[..i];
      }
    }
  }

  /** Call i finds its caller's window over and starts it anew. */
  ghost predicate Restarts(l: Limits, h: seq<Call>, i: nat)
    requires i < |h|
  {
    var before := After(l, h[..i]);
    h[i].caller in before && Monus(h[i].now, before[h[i].caller].started) >= l.window
  }

  /** The reading the code keeps: at most `max` admissions from one start of the window to the next. */
  lemma BetweenStarts(l: Limits, h: seq<Call>, i: nat)
    requires Ordered(h) && l.window >= 1 && i < |h| && Restarts(l, h, i)
    ensures
      var start := After(l, h[..i])[h[i].caller].started;
      Count(l, h, h[i].caller, start, h[i].now) <= l.max
  {
    var caller, start := h[i].caller, After(l, h[..i])[h[i].caller].started;
    CountUpTo(l, h, i, caller, start, h[i].now, h[i].now + 1);
    CountSinceStart(l, h[..i], caller, start, h[i].now + 1);
  }

  /**
   Exactly when a call is admitted: a window is over or missing, so that this call starts
   one, or fewer than `max` calls were admitted since it started.
   */
  lemma AdmittedExactly(l: Limits, h: seq<Call>, i: nat)
    requires Ordered(h) && l.window >= 1 && i < |h|
    ensures
      var caller, now, before := h[i].caller, h[i].now, After(l, h[..i]);
      var after := After(l, h[..i + 1]);
      && caller in after
      && if caller !in before || Restarts(l, h, i) then
           after[caller].started == now && (VerdictAt(l, h, i).Admitted? <==> l.max >= 1)
         else
           && after[caller].started == before[caller].started
           && (VerdictAt(l, h, i).Admitted? <==> Count(l, h[..i], caller, before[caller].started, now + 1) < l.max)
  {
    assert h[..i + 1][..i] == h[..i];
    var before := After(l, h[..i]);
    if h[i].caller in before {
      CountSinceStart(l, h[..i], h[i].caller, before[h[i].caller].started, h[i].now + 1);
    }
  }

  // ---- the advice given to a refused caller ----

  ghost function ResetTime(l: Limits, h: seq<Call>, caller: string): nat
    requires caller in After(l, h)
  {
    After(l, h)[caller].started + l.window
  }

  ghost predicate NoneAdmittedBetween(l: Limits, h: seq<Call>, caller: string, i: nat, j: nat)
    requires i < j <= |h|
  {
    forall m :: i < m < j && h[m].caller == caller ==> !VerdictAt(l, h, m).Admitted?
  }

  lemma {:induction false} StartedInPast(l: Limits, h: seq<Call>, caller: string)
    requires Ordered(h)
    ensures caller in After(l, h) ==> h != [] && After(l, h)[caller].started <= h[|h| - 1].now
  {
    if h != [] {
      StartedInPast(l, h[..|h| - 1], caller);
    }
  }

  /** Refused calls leave the caller's window as it was. */
  lemma {:induction false} RefusalsChangeNothing(l: Limits, h: seq<Call>, caller: string, i: nat, j: nat)
    requires l.max >= 1 && i < j <= |h| && h[i].caller == caller
    requires NoneAdmittedBetween(l, h, caller, i, j)
    ensures SameFor(After(l, h[..i + 1]), After(l, h[..j]), caller)
    ensures caller in After(l, h[..i + 1])
  {
    assert h[..i + 1][..i] == h[..i];
    if j > i + 1 {
      RefusalsChangeNothing(l, h, caller, i, j - 1);
      assert h[..j][..j - 1] == h[..j - 1];
      if h[j - 1].caller == caller {
        assert !VerdictAt(l, h, j - 1).Admitted?;
      }
    }
  }

  /** Whatever the limits, the advised time is after the reset, by at most a second. */
  lemma AdviceWithinSecond(l: Limits, h: seq<Call>, i: nat)
    requires Ordered(h) && i < |h| && VerdictAt(l, h, i).Refused?
    ensures h[i].caller in After(l, h[..i + 1])
    ensures
      var reset := ResetTime(l, h[..i + 1], h[i].caller);
      h[i].now <= reset < h[i].now + VerdictAt(l, h, i).retryAfter * NANOS_PER_SEC <= reset + NANOS_PER_SEC
  {
    assert h[..i + 1][..i] == h[..i];
    StartedInPast(l, h[..i], h[i].caller);
  }

  /**
   The advice is sufficient and tight: waiting that long reaches the reset, it overshoots
   by at most a second, and without an admission in between a later call is admitted
   exactly from the reset on, however many calls were refused meanwhile.
   */
  lemma RetryAdvice(l: Limits, h: seq<Call>, i: nat, j: nat)
    requires Ordered(h) && l.max >= 1 && i < j < |h| && h[i].caller == h[j].caller
    requires VerdictAt(l, h, i).Refused? && NoneAdmittedBetween(l, h, h[i].caller, i, j)
    ensures h[i].caller in After(l, h[..i + 1]) && h[i].caller in After(l, h[..j])
    ensures
      var reset := ResetTime(l, h[..i + 1], h[i].caller);
      var advised := h[i].now + VerdictAt(l, h, i).retryAfter * NANOS_PER_SEC;
      && h[i].now < reset < advised <= reset + NANOS_PER_SEC
      && ResetTime(l, h[..j], h[i].caller) == reset
      && (VerdictAt(l, h, j).Admitted? <==> h[j].now >= reset)
      && (h[j].now >= advised ==> VerdictAt(l, h, j).Admitted?)
  {
    var caller := h[i].caller;
    assert h[..i + 1][..i] == h[..i];
    StartedInPast(l, h[..i], caller);
    RefusalsChangeNothing(l, h, caller, i, j);
  }
}
