/** The login rate limiter (openblade/api/routes_aml_auth.py): one deque of admission times
    per remote address, trimmed to a sliding window when the address tries again. */
module LoginLimiter {

  /** `maxAttempts` and `windowSeconds` come unchecked from the environment. */
  datatype Policy = Policy(maxAttempts: int, windowSeconds: int)

  datatype Event =
    | Attempt(ip: string, at: real, admitted: bool)
    | Cleared(ip: string)

  datatype Verdict = Admitted | Rejected(retryAfter: int)

  // ---- what the history says ----

  /** The times at which `ip` was admitted since it was last cleared, oldest first. */
  ghost function AdmittedSinceClear(history: seq<Event>, ip: string): seq<real> {
    if history == [] then []
    else
      var before := AdmittedSinceClear(history[..|history| - 1], ip);
      match history[|history| - 1]
      case Attempt(from, at, admitted) => if from == ip && admitted then before + [at] else before
      case Cleared(from) => if from == ip then [] else before
  }

  /** How many of `times` lie in the closed interval. */
  ghost function CountIn(times: seq<real>, low: real, high: real): nat {
    if times == [] then 0
    else
      var last := times[|times| - 1];
      CountIn(times[..|times| - 1], low, high) + if low <= last <= high then 1 else 0
  }

  ghost function InWindow(p: Policy, history: seq<Event>, ip: string, now: real): nat {
    CountIn(AdmittedSinceClear(history, ip), now - p.windowSeconds as real, now)
  }

  /** Attempts happen at non-decreasing times and each is decided by the number of admissions
      in the window that ends at it. */
  ghost predicate IsRun(p: Policy, history: seq<Event>) {
    history == [] ||
    var before, last := history[..|history| - 1], history[|history| - 1];
    && IsRun(p, before)
    && (last.Attempt? ==>
          && NotBefore(before, last.at)
          && (last.admitted <==> InWindow(p, before, last.ip, last.at) < p.maxAttempts))
  }

  ghost predicate NotBefore(history: seq<Event>, now: real) {
    forall e :: e in history && e.Attempt? ==> e.at <= now
  }

  ghost predicate Ascending(times: seq<real>) {
    forall i, j :: 0 <= i <= j < |times| ==> times[i] <= times[j]
  }

  /** Any admission is more than a window later than the one `maxAttempts` places before it. */
  ghost predicate Spaced(p: Policy, times: seq<real>) {
    forall i, j :: 0 <= i < |times| && 0 <= j < |times| && j == i + p.maxAttempts ==>
                     times[j] > times[i] + p.windowSeconds as real
  }

  lemma SpacedAt(p: Policy, times: seq<real>, i: nat, j: nat)
    requires Spaced(p, times) && i < |times| && j < |times| && j == i + p.maxAttempts
    ensures times[j] > times[i] + p.windowSeconds as real
  {
  }

  // ---- counting ----

  lemma {:induction false} CountOutside(times: seq<real>, m: nat, low: real, high: real)
    requires m <= |times|
    requires forall i :: 0 <= i < m ==> times[i] < low
    ensures CountIn(times, low, high) <= |times| - m
  {
    if |times| > m {
      CountOutside(times[..|times| - 1], m, low, high);
    } else if m > 0 {
      CountOutside(times[..|times| - 1], m - 1, low, high);
    }
  }

  lemma {:induction false} CountInside(times: seq<real>, m: nat, low: real, high: real)
    requires m <= |times|
    requires forall i :: m <= i < |times| ==> low <= times[i] <= high
    ensures CountIn(times, low, high) >= |times| - m
  {
    if |times| > m {
      CountInside(times[..|times| - 1], m, low, high);
    }
  }

  /** Spaced times crowd no interval as long as the window with more than `maxAttempts`. */
  lemma {:induction false} SpacedBound(p: Policy, times: seq<real>, low: real)
    requires p.maxAttempts >= 0 && Ascending(times) && Spaced(p, times)
    ensures CountIn(times, low, low + p.windowSeconds as real) <= p.maxAttempts
  {
    if times != [] {
      var n, last, high := |times| - 1, times[|times| - 1], low + p.windowSeconds as real;
      if low <= last <= high && n >= p.maxAttempts {
        assert times[n] > times[n - p.maxAttempts] + p.windowSeconds as real;
        CountOutside(times, n - p.maxAttempts + 1, low, high);
      } else if n < p.maxAttempts {
        CountOutside(times, 0, low, high);
      } else {
        SpacedBound(p, times[..n], low);
      }
    }
  }

  // ---- every run ----

  lemma {:induction false} RunAscending(p: Policy, history: seq<Event>, ip: string, now: real)
    requires IsRun(p, history) && NotBefore(history, now)
    ensures var times := AdmittedSinceClear(history, ip);
      Ascending(times) && forall i :: 0 <= i < |times| ==> times[i] <= now
  {
    if history != [] {
      var before, last := history[..|history| - 1], history[|history| - 1];
      if last.Attempt? {
        assert last in history;
        RunAscending(p, before, ip, last.at);
      } else {
        assert forall e :: e in before ==> e in history;
        RunAscending(p, before, ip, now);
      }
    }
  }

  lemma SpacedStep(p: Policy, times: seq<real>, at: real)
    requires Ascending(times) && Spaced(p, times)
    requires forall i :: 0 <= i < |times| ==> times[i] <= at
    requires CountIn(times, at - p.windowSeconds as real, at) < p.maxAttempts
    ensures Spaced(p, times + [at])
  {
    hide CountIn;
    var longer, i := times + [at], |times| - p.maxAttempts;
    if 0 <= i < |times| && times[i] >= at - p.windowSeconds as real {
      CountInside(times, i, at - p.windowSeconds as real, at);
    }
  }

  lemma {:induction false} RunSpaced(p: Policy, history: seq<Event>, ip: string)
    requires IsRun(p, history)
    ensures var times := AdmittedSinceClear(history, ip);
      Spaced(p, times) && (p.maxAttempts <= 0 ==> times == [])
  {
    if history != [] {
      var before, last := history[..|history| - 1], history[|history| - 1];
      RunSpaced(p, before, ip);
      if last.Attempt? && last.ip == ip && last.admitted {
        RunAscending(p, before, ip, last.at);
        SpacedStep(p, AdmittedSinceClear(before, ip), last.at);
      }
    }
  }

  ghost function LastAt(history: seq<Event>): real {
    if history == [] then 0.0
    else if history[|history| - 1].Attempt? then history[|history| - 1].at
    else LastAt(history[..|history| - 1])
  }

  lemma {:induction false} LastAtBounds(p: Policy, history: seq<Event>)
    requires IsRun(p, history)
    ensures NotBefore(history, LastAt(history))
  {
    if history != [] {
      LastAtBounds(p, history[..|history| - 1]);
      assert history == history[..|history| - 1] + [history[|history| - 1]];
    }
  }

  /** In every run, between clears, no interval of the window's length holds more than
      `maxAttempts` admissions of one address. */
  lemma WindowBound(p: Policy, history: seq<Event>, ip: string, low: real)
    requires IsRun(p, history)
    ensures CountIn(AdmittedSinceClear(history, ip), low, low + p.windowSeconds as real)
      <= if p.maxAttempts > 0 then p.maxAttempts else 0
  {
    LastAtBounds(p, history);
    RunAscending(p, history, ip, LastAt(history));
    RunSpaced(p, history, ip);
    if p.maxAttempts > 0 {
      SpacedBound(p, AdmittedSinceClear(history, ip), low);
    }
  }

  // ---- Retry-After ----

  /** The first of `times` that is not before `low`, if any. */
  ghost predicate IsOldestSince(times: seq<real>, low: real, oldest: real) {
    exists k :: 0 <= k < |times| && times[k] == oldest >= low && forall i :: 0 <= i < k ==> times[i] < low
  }

  /** The advertised delay: whole seconds, more than the time until the oldest admission in
      the window leaves it, and one second when the window is empty. */
  ghost predicate IsRetryAfter(p: Policy, times: seq<real>, now: real, seconds: int) {
    var low := now - p.windowSeconds as real;
    if CountIn(times, low, now) == 0 then seconds == 1
    else exists oldest :: IsOldestSince(times, low, oldest) && seconds == (oldest - low).Floor + 1
  }

  /** Nothing in `events` admits `ip`. */
  ghost predicate NoAdmission(events: seq<Event>, ip: string) {
    forall e :: e in events && e.Attempt? && e.ip == ip ==> !e.admitted
  }

  lemma {:induction false} WithoutAdmission(history: seq<Event>, events: seq<Event>, ip: string)
    requires NoAdmission(events, ip)
    ensures var after := AdmittedSinceClear(history + events, ip);
      if Cleared(ip) in events then after == [] else after == AdmittedSinceClear(history, ip)
  {
    if events == [] {
      assert history + events == history;
    } else {
      var init, last := events[..|events| - 1], events[|events| - 1];
      assert events == init + [last];
      WithoutAdmission(history, init, ip);
      assert (history + events)[..|history + events| - 1] == history + init;
    }
  }

  lemma {:induction false} RunPrefix(p: Policy, history: seq<Event>, events: seq<Event>)
    requires IsRun(p, history + events)
    ensures IsRun(p, history)
  {
    if events == [] {
      assert history + events == history;
    } else {
      assert (history + events)[..|history + events| - 1] == history + events[..|events| - 1];
      RunPrefix(p, history, events[..|events| - 1]);
    }
  }

  lemma RunLast(p: Policy, history: seq<Event>, last: Event)
    requires IsRun(p, history + [last])
    ensures IsRun(p, history)
    ensures last.Attempt? ==> NotBefore(history, last.at)
    ensures last.Attempt? ==> (last.admitted <==> InWindow(p, history, last.ip, last.at) < p.maxAttempts)
  {
    assert (history + [last])[..|history|] == history;
  }

  /** A rejection happens with exactly `maxAttempts` admissions in the window, and the oldest
      of them is the one that many places from the end. */
  lemma RejectionFacts(p: Policy, history: seq<Event>, ip: string, now: real, seconds: int)
    requires IsRun(p, history + [Attempt(ip, now, false)]) && p.maxAttempts >= 1
    requires IsRetryAfter(p, AdmittedSinceClear(history, ip), now, seconds)
    ensures var times, low := AdmittedSinceClear(history, ip), now - p.windowSeconds as real;
      var k := |times| - p.maxAttempts;
      && k >= 0 && Ascending(times) && times[|times| - 1] <= now
      && times[k] >= low && seconds == (times[k] - low).Floor + 1
  {
    hide IsRun, CountIn, AdmittedSinceClear;
    RunLast(p, history, Attempt(ip, now, false));
    RunAscending(p, history, ip, now);
    RunSpaced(p, history, ip);
    OldestInFullWindow(p, AdmittedSinceClear(history, ip), now, seconds);
  }

  lemma OldestInFullWindow(p: Policy, times: seq<real>, now: real, seconds: int)
    requires p.maxAttempts >= 1 && Ascending(times) && Spaced(p, times)
    requires forall i :: 0 <= i < |times| ==> times[i] <= now
    requires CountIn(times, now - p.windowSeconds as real, now) >= p.maxAttempts
    requires IsRetryAfter(p, times, now, seconds)
    ensures var low, k := now - p.windowSeconds as real, |times| - p.maxAttempts;
      k >= 0 && times[k] >= low && seconds == (times[k] - low).Floor + 1
  {
    hide CountIn;
    var low, k := now - p.windowSeconds as real, |times| - p.maxAttempts;
    var oldest :| IsOldestSince(times, low, oldest) && seconds == (oldest - low).Floor + 1;
    var m :| 0 <= m < |times| && times[m] == oldest >= low && forall i :: 0 <= i < m ==> times[i] < low;
    CountOutside(times, m, low, now);
    if m < k {
      SpacedAt(p, times, m, m + p.maxAttempts);
    }
  }

  /** The state of affairs at a retry that follows a rejection with no admission in between. */
  lemma RetryFacts(
      p: Policy, history: seq<Event>, ip: string, now: real, between: seq<Event>, retry: Event)
    requires retry.Attempt? && retry.ip == ip
    requires NoAdmission(between, ip)
    requires IsRun(p, history + [Attempt(ip, now, false)] + between + [retry])
    ensures IsRun(p, history + [Attempt(ip, now, false)])
    ensures var times := if Cleared(ip) in between then [] else AdmittedSinceClear(history, ip);
      retry.admitted <==> CountIn(times, retry.at - p.windowSeconds as real, retry.at) < p.maxAttempts
  {
    hide IsRun, CountIn, AdmittedSinceClear;
    var rejected := Attempt(ip, now, false);
    var before := history + [rejected] + between;
    RunLast(p, before, retry);
    RunPrefix(p, history + [rejected], between);
    assert before == history + ([rejected] + between);
    assert Cleared(ip) in [rejected] + between <==> Cleared(ip) in between;
    WithoutAdmission(history, [rejected] + between, ip);
  }

  /** Retry-After is sufficient: a client that was rejected, waits at least the advertised
      seconds and is not admitted in between, is admitted. */
  lemma RetryAfterSuffices(
      p: Policy, history: seq<Event>, ip: string, now: real, seconds: int, between: seq<Event>, retry: Event)
    requires p.maxAttempts >= 1
    requires retry.Attempt? && retry.ip == ip && retry.at >= now + seconds as real
    requires NoAdmission(between, ip)
    requires IsRun(p, history + [Attempt(ip, now, false)] + between + [retry])
    requires IsRetryAfter(p, AdmittedSinceClear(history, ip), now, seconds)
    ensures retry.admitted
  {
    RetryFacts(p, history, ip, now, between, retry);
    RejectionFacts(p, history, ip, now, seconds);
    var times := AdmittedSinceClear(history, ip);
    CountOutside(times, |times| - p.maxAttempts + 1, retry.at - p.windowSeconds as real, retry.at);
  }

  /** It is also tight: without a clear, a retry one advertised second early or more is
      rejected again. */
  lemma RetryAfterTight(
      p: Policy, history: seq<Event>, ip: string, now: real, seconds: int, between: seq<Event>, retry: Event)
    requires p.maxAttempts >= 1
    requires retry.Attempt? && retry.ip == ip && now <= retry.at <= now + (seconds - 1) as real
    requires NoAdmission(between, ip) && Cleared(ip) !in between
    requires IsRun(p, history + [Attempt(ip, now, false)] + between + [retry])
    requires IsRetryAfter(p, AdmittedSinceClear(history, ip), now, seconds)
    ensures !retry.admitted
  {
    hide IsRun, CountIn, AdmittedSinceClear;
    RetryFacts(p, history, ip, now, between, retry);
    RejectionFacts(p, history, ip, now, seconds);
    var times := AdmittedSinceClear(history, ip);
    CountInside(times, |times| - p.maxAttempts, retry.at - p.windowSeconds as real, retry.at);
  }

  /** With no attempts allowed, no wait is long enough. */
  lemma NothingAllowed(p: Policy, history: seq<Event>, attempt: Event)
    requires p.maxAttempts <= 0 && attempt.Attempt? && IsRun(p, history + [attempt])
    ensures !attempt.admitted
  {
    assert (history + [attempt])[..|history|] == history;
  }

  /** And then the advice is one second. */
  lemma NothingAllowedAdvice(p: Policy, history: seq<Event>, ip: string, now: real, seconds: int)
    requires p.maxAttempts <= 0 && IsRun(p, history)
    requires IsRetryAfter(p, AdmittedSinceClear(history, ip), now, seconds)
    ensures seconds == 1
  {
    RunSpaced(p, history, ip);
  }

  // ---- the limiter ----

  /** `times` with everything before `low` dropped from the front. */
  ghost function DropBefore(times: seq<real>, low: real): seq<real> {
    if times != [] && times[0] < low then DropBefore(times[1..], low) else times
  }

  /** What is stored is the end of `times`; everything dropped lies before `cutoff`. */
  ghost predicate IsTail(stored: seq<real>, times: seq<real>, cutoff: real) {
    && |stored| <= |times|
    && stored == times[|times| - |stored|..]
    && forall i :: 0 <= i < |times| - |stored| ==> times[i] < cutoff
  }

  lemma {:induction false} TailTrim(stored: seq<real>, times: seq<real>, cutoff: real, low: real)
    requires IsTail(stored, times, cutoff) && cutoff <= low
    ensures var kept := DropBefore(stored, low);
      IsTail(kept, times, low) && (kept != [] ==> kept[0] >= low)
  {
    if stored != [] && stored[0] < low {
      assert stored[0] == times[|times| - |stored|];
      TailTrim(stored[1..], times, low, low);
    }
  }

  /** A tail that starts inside the window is exactly the admissions in the window. */
  lemma TailCount(kept: seq<real>, times: seq<real>, low: real, now: real)
    requires Ascending(times) && forall i :: 0 <= i < |times| ==> times[i] <= now
    requires IsTail(kept, times, low) && (kept != [] ==> kept[0] >= low)
    ensures CountIn(times, low, now) == |kept|
    ensures kept != [] ==> IsOldestSince(times, low, kept[0])
  {
    hide CountIn;
    var m := |times| - |kept|;
    assert kept != [] ==> times[m] == kept[0];
    CountOutside(times, m, low, now);
    CountInside(times, m, low, now);
  }

  // ---- the stored deques against the history ----

  type Deques = map<string, seq<real>>

  function DequeOf(attempts: Deques, ip: string): seq<real> {
    if ip in attempts then attempts[ip] else []
  }

  /** The history is a run, and every deque is the tail of its address's admissions. */
  ghost predicate Agrees(p: Policy, attempts: Deques, history: seq<Event>, clock: real) {
    && IsRun(p, history)
    && NotBefore(history, clock)
    && forall ip :: IsTail(DequeOf(attempts, ip), AdmittedSinceClear(history, ip), clock - p.windowSeconds as real)
  }

  /** After trimming, the deque is the window's admissions, and its head gives the delay. */
  lemma TrimmedDeque(
      p: Policy, attempts: Deques, history: seq<Event>, clock: real, ip: string, now: real, kept: seq<real>)
    requires Agrees(p, attempts, history, clock) && clock <= now
    requires kept == DropBefore(DequeOf(attempts, ip), now - p.windowSeconds as real)
    ensures InWindow(p, history, ip, now) == |kept|
    ensures IsTail(kept, AdmittedSinceClear(history, ip), now - p.windowSeconds as real)
    ensures NotBefore(history, now)
    ensures var low := now - p.windowSeconds as real;
      IsRetryAfter(p, AdmittedSinceClear(history, ip), now, if kept != [] then (kept[0] - low).Floor + 1 else 1)
  {
    hide CountIn, DropBefore, IsOldestSince, IsRun;
    var low, times := now - p.windowSeconds as real, AdmittedSinceClear(history, ip);
    RunAscending(p, history, ip, now);
    assert IsTail(DequeOf(attempts, ip), times, clock - p.windowSeconds as real);
    TailTrim(DequeOf(attempts, ip), times, clock - p.windowSeconds as real, low);
    TailCount(kept, times, low, now);
  }

  lemma RunAppend(p: Policy, history: seq<Event>, e: Event)
    requires IsRun(p, history) && e.Attempt? && NotBefore(history, e.at)
    requires e.admitted <==> InWindow(p, history, e.ip, e.at) < p.maxAttempts
    ensures IsRun(p, history + [e]) && NotBefore(history + [e], e.at)
  {
    hide InWindow;
    assert (history + [e])[..|history|] == history;
  }

  lemma AgreesAfterAttempt(
      p: Policy, attempts: Deques, history: seq<Event>, clock: real, ip: string, now: real, kept: seq<real>)
    requires Agrees(p, attempts, history, clock) && clock <= now && NotBefore(history, now)
    requires InWindow(p, history, ip, now) == |kept|
    requires IsTail(kept, AdmittedSinceClear(history, ip), now - p.windowSeconds as real)
    ensures var admitted := |kept| < p.maxAttempts;
      Agrees(p, attempts[ip := if admitted then kept + [now] else kept],
             history + [Attempt(ip, now, admitted)], now)
  {
    hide CountIn, IsTail, AdmittedSinceClear, IsRun, NotBefore;
    var admitted := |kept| < p.maxAttempts;
    var after := history + [Attempt(ip, now, admitted)];
    RunAppend(p, history, Attempt(ip, now, admitted));
    var stored := attempts[ip := if admitted then kept + [now] else kept];
    var low := now - p.windowSeconds as real;
    forall other
      ensures IsTail(DequeOf(stored, other), AdmittedSinceClear(after, other), low)
    {
      var times := AdmittedSinceClear(history, other);
      AdmittedStep(history, Attempt(ip, now, admitted), other);
      if other != ip {
        TailLater(DequeOf(attempts, other), times, clock - p.windowSeconds as real, low);
      } else {
        TailPush(kept, times, low, now);
      }
    }
  }

  lemma AdmittedStep(history: seq<Event>, e: Event, ip: string)
    ensures AdmittedSinceClear(history + [e], ip) ==
      if e == Cleared(ip) then []
      else if e.Attempt? && e.ip == ip && e.admitted then AdmittedSinceClear(history, ip) + [e.at]
      else AdmittedSinceClear(history, ip)
  {
    assert (history + [e])[..|history|] == history;
  }

  lemma TailLater(stored: seq<real>, times: seq<real>, cutoff: real, low: real)
    requires IsTail(stored, times, cutoff) && cutoff <= low
    ensures IsTail(stored, times, low)
  {
  }

  lemma TailPush(stored: seq<real>, times: seq<real>, cutoff: real, now: real)
    requires IsTail(stored, times, cutoff)
    ensures IsTail(stored + [now], times + [now], cutoff)
  {
  }

  lemma AgreesAfterClear(p: Policy, attempts: Deques, history: seq<Event>, clock: real, ip: string)
    requires Agrees(p, attempts, history, clock)
    ensures Agrees(p, attempts - {ip}, history + [Cleared(ip)], clock)
  {
    hide IsTail;
    var after := history + [Cleared(ip)];
    assert after[..|after| - 1] == history;
    forall other
      ensures IsTail(DequeOf(attempts - {ip}, other), AdmittedSinceClear(after, other), clock - p.windowSeconds as real)
    {
      assert IsTail(DequeOf(attempts, other), AdmittedSinceClear(history, other), clock - p.windowSeconds as real);
      EmptyTail(clock - p.windowSeconds as real);
    }
  }

  lemma EmptyTail(cutoff: real)
    ensures IsTail([], [], cutoff)
  {
  }

  // ---- the limiter ----

  class Limiter {
    const policy: Policy
    var attempts: Deques
    ghost var history: seq<Event>
    ghost var clock: real

    ghost predicate Valid()
      reads this
    {
      Agrees(policy, attempts, history, clock)
    }

    constructor (policy: Policy, start: real)
      ensures Valid() && this.policy == policy && history == [] && clock == start
    {
      this.policy := policy;
      attempts := map[];
      history := [];
      clock := start;
    }

    method CheckRateLimit(ip: string, now: real) returns (verdict: Verdict)
      requires Valid() && clock <= now
      modifies this
      ensures Valid() && clock == now
      ensures history == old(history) + [Attempt(ip, now, verdict.Admitted?)]
      ensures verdict.Admitted? <==> InWindow(policy, old(history), ip, now) < policy.maxAttempts
      ensures verdict.Rejected? ==>
        IsRetryAfter(policy, AdmittedSinceClear(old(history), ip), now, verdict.retryAfter)
      ensures forall other :: other != ip ==> DequeOf(attempts, other) == old(DequeOf(attempts, other))
    {
      hide Agrees, InWindow, AdmittedSinceClear, IsRetryAfter, IsTail, NotBefore;
      var windowStart := now - policy.windowSeconds as real;
      var deque := DequeOf(attempts, ip);
      ghost var stored := deque;
      while deque != [] && deque[0] < windowStart
        invariant DropBefore(deque, windowStart) == DropBefore(stored, windowStart)
      {
        deque := deque[1..];
      }
      TrimmedDeque(policy, attempts, history, clock, ip, now, deque);
      AgreesAfterAttempt(policy, attempts, history, clock, ip, now, deque);
      if |deque| >= policy.maxAttempts {
        var wait := if deque != [] then (deque[0] - windowStart).Floor + 1 else 1;
        verdict := Rejected(if wait > 1 then wait else 1);
      } else {
        verdict := Admitted;
        deque := deque + [now];
      }
      attempts := attempts[ip := deque];
      history := history + [Attempt(ip, now, verdict.Admitted?)];
      clock := now;
    }

    method ClearRateLimit(ip: string)
      requires Valid()
      modifies this
      ensures Valid() && clock == old(clock)
      ensures history == old(history) + [Cleared(ip)]
      ensures DequeOf(attempts, ip) == []
      ensures forall other :: other != ip ==> DequeOf(attempts, other) == old(DequeOf(attempts, other))
    {
      hide Agrees;
      AgreesAfterClear(policy, attempts, history, clock, ip);
      attempts := attempts - {ip};
      history := history + [Cleared(ip)];
    }
  }
}
