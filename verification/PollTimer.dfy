/** Periodic timers, polled with a clock in milliseconds that fits 64 bits: how often they expire,
    and when that is as often as their period says. */
module PollTimer {
  import opened Bytes

  datatype Timer = Timer(expire: nat, period: nat, repeat: bool, runNow: bool, called: bool)

  // mg_timer_expired: the new expiration time and whether the old one has come.
  function Expired(t: nat, prd: nat, now: nat): (nat, bool) {
    var t1 := if Wrap64(now + prd) < t then 0 else t;
    var t2 := if t1 == 0 then Wrap64(now + prd) else t1;
    if t2 > now then (t2, false) else (if now - t2 > prd then Wrap64(now + prd) else Wrap64(t2 + prd), true)
  }

  // One timer's turn in mg_timer_poll: whether its function is called.
  function Polled(t: Timer, now: nat): (Timer, bool) {
    var once := t.expire == 0 && t.runNow && !t.called;
    var (expire, expired) := Expired(t.expire, t.period, now);
    var t1 := t.(expire := expire);
    if !once && !expired then (t1, false) else (t1.(called := true), t.repeat || !t.called)
  }

  function Init(period: nat, repeat: bool, runNow: bool): Timer {
    Timer(0, period, repeat, runNow, false)
  }

  /// Polling at a sequence of times, and counting.

  datatype Outcome = Outcome(timer: Timer, expirations: nat, calls: nat)

  function Run(t: Timer, times: seq<nat>): Outcome {
    if times == [] then Outcome(t, 0, 0)
    else
      var before, now := Run(t, times[..|times| - 1]), times[|times| - 1];
      var (after, call) := Polled(before.timer, now);
      var expired := Expired(before.timer.expire, before.timer.period, now).1;
      Outcome(after, before.expirations + (if expired then 1 else 0), before.calls + (if call then 1 else 0))
  }

  // A timer expires when its time has come, but never on the poll that starts it; its next time is one period
  // after the last, or one period from now when that has gone by already, or when it lies further ahead than a
  // period because the clock has been put back.
  lemma ExpiredIs(t: nat, prd: nat, now: nat)
    requires prd > 0 && now + prd < TWO_64
    ensures var (next, expired) := Expired(t, prd, now);
            && (expired <==> 0 < t <= now)
            && next == if t == 0 || t > now + prd || now - t > prd then now + prd else if expired then t + prd else t
  {
    assert Wrap64(now + prd) == now + prd;
    if t <= now { assert Wrap64(t + prd) == t + prd; }
    hide Wrap64;
  }

  // When adding the period wraps around, a timer that is still running expires at once.
  lemma WrapExpires(t: nat, prd: nat, now: nat)
    requires prd < TWO_64 && now < TWO_64 <= now + prd && t > now + prd - TWO_64
    ensures Expired(t, prd, now).1
  {
    assert Wrap64(now + prd) == now + prd - TWO_64;
    hide Wrap64;
  }

  // A clock that never goes back and stays a period away from wrapping.
  predicate Ticks(times: seq<nat>, period: nat) {
    && period > 0
    && (forall i, j :: 0 <= i <= j < |times| ==> times[i] <= times[j])
    && (forall i :: 0 <= i < |times| ==> times[i] + period < TWO_64)
  }

  // Whole periods since the first poll.
  function Due(times: seq<nat>, period: nat): nat
    requires times != [] && Ticks(times, period)
  {
    Periods(times[|times| - 1] - times[0], period)
  }

  function Periods(d: nat, period: nat): nat
    requires period > 0
  {
    if d < period then 0 else 1 + Periods(d - period, period)
  }

  lemma {:induction false} PeriodsIs(d: nat, period: nat, n: nat)
    requires period > 0 && n * period <= d < (n + 1) * period
    ensures Periods(d, period) == n
    decreases n
  {
    if n > 0 {
      assert (n - 1) * period == n * period - period && (n + 1) * period == n * period + period;
      PeriodsIs(d - period, period, n - 1);
    }
  }

  lemma {:induction false} PeriodsBound(d: nat, period: nat)
    requires period > 0
    ensures Periods(d, period) * period <= d < (Periods(d, period) + 1) * period
  {
    if d >= period {
      var n := Periods(d - period, period);
      PeriodsBound(d - period, period);
      assert (n + 1) * period == n * period + period && (n + 2) * period == (n + 1) * period + period;
    }
  }

  lemma PeriodsMonotone(d: nat, e: nat, period: nat)
    requires period > 0 && d <= e
    ensures Periods(d, period) <= Periods(e, period)
  {
  }

  function Last(times: seq<nat>): nat
    requires times != []
  {
    times[|times| - 1]
  }

  // What every poll keeps: the next expiration is at most a period ahead and not in the past, and the
  // expirations so far fit between the first poll and it, a whole period each.
  lemma {:induction false} NextExpiration(t: Timer, times: seq<nat>)
    requires t.expire == 0 && times != [] && Ticks(times, t.period)
    ensures var o := Run(t, times); var p := t.period;
            && o.timer.period == p && Last(times) <= o.timer.expire <= Last(times) + p && o.timer.expire > 0
            && times[0] + (o.expirations + 1) * p <= o.timer.expire
    decreases |times|
  {
    hide Expired;
    var p, now, rest := t.period, Last(times), times[..|times| - 1];
    if rest == [] {
      assert Run(t, rest) == Outcome(t, 0, 0);
      OneMore(0, p);
      ExpiredStep(0, p, now);
    } else {
      NextExpiration(t, rest);
      var o := Run(t, rest);
      OneMore(o.expirations + 1, p);
      ExpiredStep(o.timer.expire, p, now);
    }
  }

  // One poll, of a new timer or of one that is due at most a period ahead.
  lemma ExpiredStep(expire: nat, p: nat, now: nat)
    requires p > 0 && now + p < TWO_64 && (expire == 0 || expire <= now + p)
    ensures var (next, expired) := Expired(expire, p, now);
            && now <= next <= now + p && next > 0
            && (expire == 0 ==> !expired && next == now + p)
            && (expire > 0 ==> next >= expire + if expired then p else 0)
  {
  }

  // A timer never expires more often than its period allows.
  lemma NeverAhead(t: Timer, times: seq<nat>)
    requires t.expire == 0 && times != [] && Ticks(times, t.period)
    ensures Run(t, times).expirations * t.period <= Last(times) - times[0]
    ensures Run(t, times).expirations <= Due(times, t.period)
  {
    NextExpiration(t, times);
    var k, p, d := Run(t, times).expirations, t.period, Last(times) - times[0];
    hide Run, Ticks, Periods;
    OneMore(k, p);
    PeriodsBound(d, p);
    Fewer(k, Periods(d, p) + 1, p);
  }

  lemma OneMore(k: nat, p: nat)
    ensures (k + 1) * p == k * p + p
  {
  }

  lemma NoFewer(n: nat, k: nat, p: nat)
    requires n <= k
    ensures n * p <= k * p
  {
  }

  lemma Fewer(k: nat, n: nat, p: nat)
    requires k * p < n * p
    ensures k < n
  {
    if n <= k { NoFewer(n, k, p); }
  }

  /// No drift.

  // No poll comes so late that two more periods have ended since the one before.
  predicate Steady(times: seq<nat>, period: nat)
    requires Ticks(times, period)
  {
    forall n :: 0 < n < |times| ==> Due(times[..n + 1], period) <= Due(times[..n], period) + 1
  }

  // After every poll there have been as many expirations as periods have ended.
  predicate Exact(t: Timer, times: seq<nat>)
    requires Ticks(times, t.period)
  {
    forall n :: 0 < n <= |times| ==> Run(t, times[..n]).expirations == Due(times[..n], t.period)
  }

  // The count is that of the periods ended, and the next expiration is due when the next one ends.
  predicate OnTime(o: Outcome, first: nat, period: nat, due: nat) {
    o.expirations == due && o.timer.period == period && o.timer.expire == first + (due + 1) * period
  }

  lemma {:induction false} SteadyStays(t: Timer, times: seq<nat>)
    requires t.expire == 0 && times != [] && Ticks(times, t.period) && Steady(times, t.period)
    ensures OnTime(Run(t, times), times[0], t.period, Due(times, t.period))
    decreases |times|
  {
    var p, now, rest := t.period, Last(times), times[..|times| - 1];
    if rest == [] {
      assert Run(t, rest) == Outcome(t, 0, 0);
      assert 1 * p == p;
    } else {
      hide OnTime, Periods, Steady, Ticks;
      SteadyFront(times, p);
      SteadyStays(t, rest);
      PeriodsMonotone(Last(rest) - times[0], now - times[0], p);
      OnTimeStep(Run(t, rest), Run(t, times), times[0], now, p, Due(rest, p));
    }
  }

  lemma SteadyFront(times: seq<nat>, p: nat)
    requires |times| > 1 && Ticks(times, p) && Steady(times, p)
    ensures var rest := times[..|times| - 1];
            && Ticks(rest, p) && Steady(rest, p) && Due(times, p) <= Due(rest, p) + 1
            && times[0] <= Last(rest) <= Last(times) && Last(times) + p < TWO_64
  {
    hide Periods;
    var n, rest := |times| - 1, times[..|times| - 1];
    assert times[..n + 1] == times && forall i :: 0 < i <= n ==> times[..i] == rest[..i];
  }

  lemma OnTimeStep(o: Outcome, next: Outcome, first: nat, now: nat, p: nat, before: nat)
    requires p > 0 && OnTime(o, first, p, before) && first <= now && now + p < TWO_64
    requires before <= Periods(now - first, p) <= before + 1
    requires next.timer == Polled(o.timer, now).0
    requires next.expirations == o.expirations + (if Expired(o.timer.expire, p, now).1 then 1 else 0)
    ensures OnTime(next, first, p, Periods(now - first, p))
  {
    var due := Periods(now - first, p);
    PeriodsBound(now - first, p);
    OnScheduleStep(first, now, p, before, due);
    hide Expired, Periods;
  }

  // One poll of a timer whose expiration is due when the next period ends.
  lemma OnScheduleStep(first: nat, now: nat, p: nat, before: nat, due: nat)
    requires before <= due <= before + 1 && first <= now && now + p < TWO_64
    requires due * p <= now - first < (due + 1) * p
    ensures Expired(first + (before + 1) * p, p, now) == (first + (due + 1) * p, due > before)
  {
    var q := before * p;
    assert (before + 1) * p == q + p && (before + 2) * p == q + p + p;
    if due == before {
      assert now < first + q + p <= now + p;
    } else {
      assert due * p == q + p && (due + 1) * p == q + p + p;
    }
  }

  // Polled with any gaps, the count of expirations is floor(elapsed / period) at every poll exactly
  // when no gap takes in the ends of two periods.
  lemma ExactMeansSteady(t: Timer, times: seq<nat>)
    requires t.expire == 0 && Ticks(times, t.period)
    ensures Exact(t, times) <==> Steady(times, t.period)
  {
    if Steady(times, t.period) {
      forall n | 0 < n <= |times|
        ensures Run(t, times[..n]).expirations == Due(times[..n], t.period)
      {
        assert forall i :: 0 < i <= n ==> times[..n][..i] == times[..i];
        SteadyStays(t, times[..n]);
      }
    }
    if Exact(t, times) {
      forall n | 0 < n < |times|
        ensures Due(times[..n + 1], t.period) <= Due(times[..n], t.period) + 1
      {
        assert times[..n + 1][..n] == times[..n];
        assert Run(t, times[..n + 1]).expirations <= Run(t, times[..n]).expirations + 1;
      }
    }
  }

  // Polling at least once a period is enough.
  lemma OnceAPeriod(times: seq<nat>, period: nat)
    requires Ticks(times, period)
    requires forall n :: 0 < n < |times| ==> times[n] - times[n - 1] <= period
    ensures Steady(times, period)
  {
    forall n | 0 < n < |times|
      ensures Due(times[..n + 1], period) <= Due(times[..n], period) + 1
    {
      var d, e := times[n - 1] - times[0], times[n] - times[0];
      assert times[n] - times[n - 1] <= period;
      PeriodsMonotone(e, d + period, period);
    }
  }

  // Polled late, a timer is behind: a gap over two ends is answered by one expiration.
  lemma LateIsBehind(t: Timer, times: seq<nat>)
    requires t.expire == 0 && Ticks(times, t.period) && |times| > 1 && Steady(times[..|times| - 1], t.period)
    requires !Steady(times, t.period)
    ensures Run(t, times).expirations < Due(times, t.period)
  {
    var rest := times[..|times| - 1];
    assert forall i :: 0 < i <= |rest| ==> times[..i] == rest[..i];
    assert times[..|times|] == times;
    SteadyStays(t, rest);
  }

  /// Calls of the timer's function.

  // A repeating timer's function is called at each expiration, and once more, at the first poll, when
  // it is to run at once; any other timer's function is called once, then or at the first expiration.
  lemma {:induction false} CallsAre(t: Timer, times: seq<nat>)
    requires t == Init(t.period, t.repeat, t.runNow) && times != [] && Ticks(times, t.period)
    ensures var o := Run(t, times); var n := o.expirations + (if t.runNow then 1 else 0);
            && o.calls == (if t.repeat then n else if n == 0 then 0 else 1)
            && o.timer.called == (n > 0) && o.timer.repeat == t.repeat && o.timer.runNow == t.runNow
    decreases |times|
  {
    var rest := times[..|times| - 1];
    if rest == [] {
      assert Run(t, rest) == Outcome(t, 0, 0);
    } else {
      CallsAre(t, rest);
      NextExpiration(t, rest);
    }
  }

  /// The code.

  class TimerNode {
    var expire: nat
    const period: nat
    const repeat: bool
    const runNow: bool
    var called: bool

    ghost function View(): Timer
      reads this
    {
      Timer(expire, period, repeat, runNow, called)
    }

    // mg_timer_init
    constructor (ms: nat, again: bool, now: bool)
      ensures View() == Init(ms, again, now)
    {
      expire, period, repeat, runNow, called := 0, ms, again, now, false;
    }

    // mg_timer_expired
    method CheckExpired(now: nat) returns (expired: bool)
      modifies this`expire
      ensures (expire, expired) == Expired(old(expire), period, now)
    {
      var end := Wrap64(now + period);
      if end < expire { expire := 0; }
      if expire == 0 { expire := end; }
      if expire > now { return false; }
      expire := if now - expire > period then end else Wrap64(expire + period);
      return true;
    }

    // One turn of the loop in mg_timer_poll.
    method Poll(now: nat) returns (call: bool)
      modifies this
      ensures (View(), call) == Polled(old(View()), now)
    {
      var once := expire == 0 && runNow && !called;
      var expired := CheckExpired(now);
      call := false;
      if once || expired {
        call := repeat || !called;
        called := true;
      }
    }
  }

  // A poll at each of the times.
  method PollAt(ms: nat, again: bool, now: bool, times: seq<nat>) returns (calls: nat, node: TimerNode)
    ensures fresh(node) && Outcome(node.View(), Run(Init(ms, again, now), times).expirations, calls)
                           == Run(Init(ms, again, now), times)
  {
    node := new TimerNode(ms, again, now);
    calls := 0;
    for i := 0 to |times|
      invariant fresh(node) && node.View() == Run(Init(ms, again, now), times[..i]).timer
      invariant calls == Run(Init(ms, again, now), times[..i]).calls
    {
      assert times[..i + 1][..i] == times[..i];
      var call := node.Poll(times[i]);
      if call { calls := calls + 1; }
    }
    assert times[..|times|] == times;
  }
}
