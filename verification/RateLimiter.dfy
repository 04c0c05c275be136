/**
 The per-address token bucket, with and without eviction of idle entries.
 Times are nanoseconds; one token costs one second's worth.
 */
module RateLimiter {
  import opened Bytes
  import opened Clock

  const TTL := 10 * SECOND
  const COST := SECOND

  type Addr = seq<byte>

  datatype Config = Config(rate: nat, burst: nat) {
    predicate Valid() { rate > 0 && burst > 0 }
    function MaxTokens(): nat { burst * SECOND }

    /** An empty bucket is full again by the time it can be evicted. */
    predicate RefillsInTime() { burst * SECOND <= (TTL + 1) * rate }
  }

  datatype Entry = Entry(last: int, tokens: int)

  type Entries = map<Addr, Entry>

  datatype Call = Call(addr: Addr, now: int)

  // ---------------------------------------------------------------- the bucket

  /** The tokens an address has at a time. */
  function Level(cfg: Config, m: Entries, a: Addr, now: int): int {
    if a in m then Min(m[a].tokens + (now - m[a].last) * cfg.rate, cfg.MaxTokens()) else cfg.MaxTokens()
  }

  /** One call without eviction: an unknown address is allowed, a known one if a token is left. */
  function Take(cfg: Config, m: Entries, c: Call): (Entries, bool) {
    var level := Level(cfg, m, c.addr, c.now);
    if c.addr !in m then (m[c.addr := Entry(c.now, level - COST)], true)
    else if level < COST then (m[c.addr := Entry(c.now, level)], false)
    else (m[c.addr := Entry(c.now, level - COST)], true)
  }

  datatype State = State(lastCleanup: int, entries: Entries)

  /** Once a second, entries idle for more than ten seconds are dropped. */
  function Cleaned(s: State, now: int): State {
    if now - s.lastCleanup >= SECOND then
      State(now, map a | a in s.entries && now - s.entries[a].last <= TTL :: s.entries[a])
    else s
  }

  function Allow(cfg: Config, s: State, c: Call): (State, bool) {
    var s' := Cleaned(s, c.now);
    var (m, ok) := Take(cfg, s'.entries, c);
    (s'.(entries := m), ok)
  }

  // ---------------------------------------------------------------- runs

  predicate Ordered(t: int, calls: seq<Call>)
    decreases |calls|
  {
    calls != [] ==> t <= calls[0].now && Ordered(calls[0].now, calls[1..])
  }

  function Answers(cfg: Config, s: State, calls: seq<Call>): (r: seq<bool>)
    ensures |r| == |calls|
    decreases |calls|
  {
    if calls == [] then [] else
      var (s', ok) := Allow(cfg, s, calls[0]);
      [ok] + Answers(cfg, s', calls[1..])
  }

  /** The answers of a limiter that never evicts. */
  function ReferenceAnswers(cfg: Config, m: Entries, calls: seq<Call>): (r: seq<bool>)
    ensures |r| == |calls|
    decreases |calls|
  {
    if calls == [] then [] else
      var (m', ok) := Take(cfg, m, calls[0]);
      [ok] + ReferenceAnswers(cfg, m', calls[1..])
  }

  // ---------------------------------------------------------------- eviction is invisible

  ghost predicate InRange(cfg: Config, m: Entries, t: int) {
    forall a :: a in m ==> 0 <= m[a].tokens <= cfg.MaxTokens() && m[a].last <= t
  }

  /** The evicting limiter has a part of the reference's entries; the others have been idle for too long. */
  ghost predicate Simulates(cfg: Config, s: State, m: Entries, t: int) {
    && InRange(cfg, m, t)
    && (forall a :: a in s.entries ==> a in m && s.entries[a] == m[a])
    && (forall a :: a in m && a !in s.entries ==> t - m[a].last > TTL)
  }

  lemma Grows(a: int, b: int, rate: nat)
    requires a <= b
    ensures a * rate <= b * rate
  {
    assert (b - a) * rate >= 0;
    assert (b - a) * rate == b * rate - a * rate;
  }

  lemma LevelInRange(cfg: Config, m: Entries, a: Addr, t: int, now: int)
    requires cfg.Valid() && InRange(cfg, m, t) && t <= now
    ensures 0 <= Level(cfg, m, a, now) <= cfg.MaxTokens()
    ensures cfg.MaxTokens() >= COST
  {
    if a in m {
      Grows(0, now - m[a].last, cfg.rate);
    }
    assert cfg.burst * SECOND >= SECOND;
  }

  /** An evicted bucket would be full again. */
  lemma IdleIsFull(cfg: Config, m: Entries, a: Addr, t: int, now: int)
    requires cfg.Valid() && cfg.RefillsInTime() && InRange(cfg, m, t) && a in m && now - m[a].last > TTL
    ensures Level(cfg, m, a, now) == cfg.MaxTokens()
  {
    Grows(TTL + 1, now - m[a].last, cfg.rate);
  }

  lemma TakeKeepsRange(cfg: Config, m: Entries, t: int, c: Call)
    requires cfg.Valid() && InRange(cfg, m, t) && t <= c.now
    ensures InRange(cfg, Take(cfg, m, c).0, c.now)
  {
    LevelInRange(cfg, m, c.addr, t, c.now);
  }

  lemma StepSimulates(cfg: Config, s: State, m: Entries, t: int, c: Call)
    requires cfg.Valid() && cfg.RefillsInTime() && Simulates(cfg, s, m, t) && t <= c.now
    ensures Allow(cfg, s, c).1 == Take(cfg, m, c).1
    ensures Simulates(cfg, Allow(cfg, s, c).0, Take(cfg, m, c).0, c.now)
  {
    LevelInRange(cfg, m, c.addr, t, c.now);
    TakeKeepsRange(cfg, m, t, c);
    var s' := Cleaned(s, c.now);
    assert forall a :: a in s'.entries ==> a in m && s'.entries[a] == m[a];
    assert forall a :: a in m && a !in s'.entries ==> c.now - m[a].last > TTL;
    if c.addr in m && c.addr !in s'.entries {
      IdleIsFull(cfg, m, c.addr, t, c.now);
    }
  }

  /** The limiter that evicts gives the same answers as one that never does. */
  lemma {:induction false} EvictionIsInvisible(cfg: Config, s: State, m: Entries, t: int, calls: seq<Call>)
    requires cfg.Valid() && cfg.RefillsInTime() && Simulates(cfg, s, m, t) && Ordered(t, calls)
    ensures Answers(cfg, s, calls) == ReferenceAnswers(cfg, m, calls)
    decreases |calls|
  {
    if calls != [] {
      StepSimulates(cfg, s, m, t, calls[0]);
      EvictionIsInvisible(cfg, Allow(cfg, s, calls[0]).0, Take(cfg, m, calls[0]).0, calls[0].now, calls[1..]);
    }
  }

  // ---------------------------------------------------------------- the rate bound

  /** How often a is allowed. */
  function Allowed(a: Addr, calls: seq<Call>, answers: seq<bool>): nat
    requires |calls| == |answers|
  {
    if calls == [] then 0
    else (if calls[0].addr == a && answers[0] then 1 else 0) + Allowed(a, calls[1..], answers[1..])
  }

  /** Time fills the bucket at the rate. */
  lemma LevelGrows(cfg: Config, m: Entries, a: Addr, t: int, now: int)
    requires t <= now
    ensures Level(cfg, m, a, now) <= Level(cfg, m, a, t) + (now - t) * cfg.rate
  {
    Grows(0, now - t, cfg.rate);
    if a in m {
      assert (now - m[a].last) * cfg.rate == (t - m[a].last) * cfg.rate + (now - t) * cfg.rate;
    }
  }

  /** A call takes one token from its own address when it is allowed, and nothing else. */
  lemma TakeCosts(cfg: Config, m: Entries, t: int, c: Call, a: Addr)
    requires cfg.Valid() && InRange(cfg, m, t) && t <= c.now
    ensures var (m', ok) := Take(cfg, m, c);
            Level(cfg, m', a, c.now) == Level(cfg, m, a, c.now) - (if a == c.addr && ok then COST else 0)
  {
    LevelInRange(cfg, m, c.addr, t, c.now);
  }

  /** From any state, the allowed calls of one address are paid for by its level and the time that passes. */
  lemma {:induction false} AllowedIsPaid(cfg: Config, m: Entries, a: Addr, t: int, end: int, calls: seq<Call>)
    requires cfg.Valid() && InRange(cfg, m, t) && Ordered(t, calls) && t <= end
    requires forall k :: 0 <= k < |calls| ==> calls[k].now <= end
    ensures COST * Allowed(a, calls, ReferenceAnswers(cfg, m, calls)) <= Level(cfg, m, a, t) + (end - t) * cfg.rate
    decreases |calls|
  {
    LevelInRange(cfg, m, a, t, t);
    Grows(0, end - t, cfg.rate);
    if calls != [] {
      var c := calls[0];
      var (m', ok) := Take(cfg, m, c);
      var later := ReferenceAnswers(cfg, m', calls[1..]);
      assert ReferenceAnswers(cfg, m, calls)[1..] == later;
      TakeKeepsRange(cfg, m, t, c);
      AllowedIsPaid(cfg, m', a, c.now, end, calls[1..]);
      TakeCosts(cfg, m, t, c, a);
      LevelGrows(cfg, m, a, t, c.now);
      assert (end - t) * cfg.rate == (c.now - t) * cfg.rate + (end - c.now) * cfg.rate;
      hide Level, Take, ReferenceAnswers;
      assert Allowed(a, calls, [ok] + later) == (if c.addr == a && ok then 1 else 0) + Allowed(a, calls[1..], later);
    }
  }

  /** In any window one address is allowed at most burst + rate * T times, whatever came before. */
  lemma RateBound(cfg: Config, s: State, m: Entries, a: Addr, t: int, end: int, calls: seq<Call>)
    requires cfg.Valid() && cfg.RefillsInTime() && Simulates(cfg, s, m, t) && Ordered(t, calls) && t <= end
    requires forall k :: 0 <= k < |calls| ==> calls[k].now <= end
    ensures SECOND * Allowed(a, calls, Answers(cfg, s, calls)) <= SECOND * cfg.burst + (end - t) * cfg.rate
  {
    hide Answers, ReferenceAnswers;
    EvictionIsInvisible(cfg, s, m, t, calls);
    AllowedIsPaid(cfg, m, a, t, end, calls);
    LevelInRange(cfg, m, a, t, t);
  }

  // ---------------------------------------------------------------- the condition is exact

  function RefAfter(cfg: Config, m: Entries, calls: seq<Call>): Entries
    decreases |calls|
  {
    if calls == [] then m else RefAfter(cfg, Take(cfg, m, calls[0]).0, calls[1..])
  }

  function After(cfg: Config, s: State, calls: seq<Call>): State
    decreases |calls|
  {
    if calls == [] then s else After(cfg, Allow(cfg, s, calls[0]).0, calls[1..])
  }

  function Repeat(a: Addr, now: int, n: nat): (r: seq<Call>)
    ensures |r| == n && forall k :: 0 <= k < n ==> r[k] == Call(a, now)
  {
    if n == 0 then [] else [Call(a, now)] + Repeat(a, now, n - 1)
  }

  lemma {:induction false} RepeatIsOrdered(a: Addr, now: int, n: nat)
    ensures Ordered(now, Repeat(a, now, n))
  {
    if n > 0 {
      RepeatIsOrdered(a, now, n - 1);
      assert Repeat(a, now, n)[1..] == Repeat(a, now, n - 1);
    }
  }

  /** A level of n tokens pays for n calls at once. */
  lemma {:induction false} Spend(cfg: Config, m: Entries, t: int, a: Addr, now: int, n: nat)
    requires cfg.Valid() && InRange(cfg, m, t) && t <= now && Level(cfg, m, a, now) >= n * COST
    ensures var calls := Repeat(a, now, n);
            var m' := RefAfter(cfg, m, calls);
            && Level(cfg, m', a, now) == Level(cfg, m, a, now) - n * COST
            && Allowed(a, calls, ReferenceAnswers(cfg, m, calls)) == n
            && (t == now ==> InRange(cfg, m', now)) && (n > 0 ==> InRange(cfg, m', now) && a in m' && m'[a].last == now)
    decreases n
  {
    var calls := Repeat(a, now, n);
    if n > 0 {
      var c, rest := calls[0], calls[1..];
      assert rest == Repeat(a, now, n - 1);
      var (m', ok) := Take(cfg, m, c);
      TakeKeepsRange(cfg, m, t, c);
      TakeCosts(cfg, m, t, c, a);
      assert ok;
      Spend(cfg, m', now, a, now, n - 1);
      var later := ReferenceAnswers(cfg, m', rest);
      assert ReferenceAnswers(cfg, m, calls) == [ok] + later;
      assert ([ok] + later)[1..] == later;
      if n == 1 {
        assert RefAfter(cfg, m, calls) == m';
      }
    }
  }

  /** At one instant the evicting limiter cleans up at most once, before the first call. */
  lemma {:induction false} OneInstant(cfg: Config, s: State, a: Addr, now: int, n: nat)
    ensures var calls := Repeat(a, now, n);
            && Answers(cfg, s, calls) == ReferenceAnswers(cfg, Cleaned(s, now).entries, calls)
            && (n > 0 ==>
                  After(cfg, s, calls) == Cleaned(s, now).(entries := RefAfter(cfg, Cleaned(s, now).entries, calls)))
    decreases n
  {
    var calls := Repeat(a, now, n);
    if n > 0 {
      assert calls[1..] == Repeat(a, now, n - 1);
      var s' := Allow(cfg, s, calls[0]).0;
      assert Cleaned(s', now) == s';
      OneInstant(cfg, s', a, now, n - 1);
    }
  }

  lemma {:induction false} AnswersConcat(cfg: Config, s: State, m: Entries, a: seq<Call>, b: seq<Call>)
    ensures Answers(cfg, s, a + b) == Answers(cfg, s, a) + Answers(cfg, After(cfg, s, a), b)
    ensures ReferenceAnswers(cfg, m, a + b)
            == ReferenceAnswers(cfg, m, a) + ReferenceAnswers(cfg, RefAfter(cfg, m, a), b)
    decreases |a|
  {
    if a == [] {
      assert a + b == b;
    } else {
      hide Allow, Take;
      assert (a + b)[0] == a[0] && (a + b)[1..] == a[1..] + b;
      AnswersConcat(cfg, Allow(cfg, s, a[0]).0, Take(cfg, m, a[0]).0, a[1..], b);
    }
  }

  /** Spend the burst, wait for the eviction, spend it again. */
  function Probe(cfg: Config, a: Addr): seq<Call> {
    Repeat(a, 0, cfg.burst) + Repeat(a, TTL + 1, cfg.burst)
  }

  /** With a larger burst the eviction shows: the probe is answered differently. */
  lemma EvictionShows(cfg: Config, a: Addr)
    requires cfg.Valid() && !cfg.RefillsInTime()
    ensures Answers(cfg, State(0, map[]), Probe(cfg, a)) != ReferenceAnswers(cfg, map[], Probe(cfg, a))
  {
    var n, first, second := cfg.burst, Repeat(a, 0, cfg.burst), Repeat(a, TTL + 1, cfg.burst);
    var m: Entries, s := map[], State(0, map[]);
    Spend(cfg, m, 0, a, 0, n);
    OneInstant(cfg, s, a, 0, n);
    var m1, s1 := RefAfter(cfg, m, first), After(cfg, s, first);
    assert Cleaned(s, 0) == s && s1 == State(0, m1) && m1[a] == Entry(0, 0);
    AnswersConcat(cfg, s, m, first, second);
    SecondBatch(cfg, a, m1);
    var x, y := Answers(cfg, s, first + second), ReferenceAnswers(cfg, m, first + second);
    assert x[n..] == Answers(cfg, s1, second) && y[n..] == ReferenceAnswers(cfg, m1, second);
  }

  lemma SecondBatch(cfg: Config, a: Addr, m1: Entries)
    requires cfg.Valid() && !cfg.RefillsInTime()
    requires InRange(cfg, m1, 0) && a in m1 && m1[a] == Entry(0, 0)
    ensures var second := Repeat(a, TTL + 1, cfg.burst);
            Answers(cfg, State(0, m1), second) != ReferenceAnswers(cfg, m1, second)
  {
    var n, now, second := cfg.burst, TTL + 1, Repeat(a, TTL + 1, cfg.burst);
    var kept := Cleaned(State(0, m1), now).entries;
    assert a !in kept && InRange(cfg, kept, now) && InRange(cfg, m1, now);
    assert Level(cfg, kept, a, now) == n * COST;
    LevelBelowBurst(cfg, a, m1);
    hide Level, Cleaned, Answers, ReferenceAnswers, Repeat, RefAfter, After;
    OneInstant(cfg, State(0, m1), a, now, n);
    Spend(cfg, kept, now, a, now, n);
    RepeatIsOrdered(a, now, n);
    AllowedIsPaid(cfg, m1, a, now, now, second);
  }

  lemma LevelBelowBurst(cfg: Config, a: Addr, m1: Entries)
    requires !cfg.RefillsInTime() && a in m1 && m1[a] == Entry(0, 0)
    ensures Level(cfg, m1, a, TTL + 1) + (TTL + 1 - (TTL + 1)) * cfg.rate < cfg.burst * COST
  {
  }

  lemma ProbeIsOrdered(cfg: Config, a: Addr)
    ensures Ordered(0, Probe(cfg, a))
  {
    RepeatIsOrdered(a, TTL + 1, cfg.burst);
    OrderedThen(a, 0, cfg.burst, Repeat(a, TTL + 1, cfg.burst), TTL + 1);
  }

  lemma {:induction false} OrderedThen(a: Addr, now: int, n: nat, later: seq<Call>, t: int)
    requires now <= t && Ordered(t, later)
    ensures Ordered(now, Repeat(a, now, n) + later)
  {
    var calls := Repeat(a, now, n) + later;
    if n == 0 {
      assert calls == later;
    } else {
      assert calls[0] == Call(a, now) && calls[1..] == Repeat(a, now, n - 1) + later;
      OrderedThen(a, now, n - 1, later, t);
    }
  }

  /** A new limiter answers every run as one that never evicts, if and only if buckets refill in time. */
  lemma EvictionIsInvisibleExactly(cfg: Config)
    requires cfg.Valid()
    ensures (forall calls: seq<Call> | Ordered(0, calls) ::
               Answers(cfg, State(0, map[]), calls) == ReferenceAnswers(cfg, map[], calls))
            <==> cfg.RefillsInTime()
    ensures cfg.burst <= 10 * cfg.rate ==> cfg.RefillsInTime()
    ensures cfg.rate < SECOND && cfg.RefillsInTime() ==> cfg.burst <= 10 * cfg.rate
  {
    if cfg.RefillsInTime() {
      forall calls: seq<Call> | Ordered(0, calls)
        ensures Answers(cfg, State(0, map[]), calls) == ReferenceAnswers(cfg, map[], calls)
      {
        EvictionIsInvisible(cfg, State(0, map[]), map[], 0, calls);
      }
    } else {
      EvictionShows(cfg, []);
      ProbeIsOrdered(cfg, []);
    }
    assert (TTL + 1) * cfg.rate == 10 * cfg.rate * SECOND + cfg.rate;
  }

  // ---------------------------------------------------------------- windows of a run

  lemma {:induction false} SimulatesAfter(cfg: Config, s: State, m: Entries, t: int, calls: seq<Call>, end: int)
    requires cfg.Valid() && cfg.RefillsInTime() && Simulates(cfg, s, m, t) && Ordered(t, calls) && t <= end
    requires forall k :: 0 <= k < |calls| ==> calls[k].now <= end
    ensures Simulates(cfg, After(cfg, s, calls), RefAfter(cfg, m, calls), end)
    decreases |calls|
  {
    hide Allow, Take;
    if calls != [] {
      StepSimulates(cfg, s, m, t, calls[0]);
      SimulatesAfter(cfg, Allow(cfg, s, calls[0]).0, Take(cfg, m, calls[0]).0, calls[0].now, calls[1..], end);
    }
  }

  /** A run and a window of it: the calls before and in the window, and the times between which the window lies. */
  ghost predicate IsWindow(created: int, before: seq<Call>, window: seq<Call>, start: int, end: int) {
    && Ordered(created, before) && Ordered(start, window) && created <= start <= end
    && (forall k :: 0 <= k < |before| ==> before[k].now <= start)
    && (forall k :: 0 <= k < |window| ==> window[k].now <= end)
  }

  /** One address is allowed at most burst + rate * T calls in the window. */
  ghost predicate WindowBounded(cfg: Config, created: int, before: seq<Call>, window: seq<Call>, a: Addr,
                                start: int, end: int)
  {
    var answers := Answers(cfg, State(created, map[]), before + window);
    SECOND * Allowed(a, window, answers[|before|..]) <= SECOND * cfg.burst + (end - start) * cfg.rate
  }

  /** Over any run of a new limiter, any window allows one address at most burst + rate * T calls. */
  lemma EveryWindow(cfg: Config, created: int, before: seq<Call>, window: seq<Call>, a: Addr, start: int, end: int)
    requires cfg.Valid() && cfg.RefillsInTime() && IsWindow(created, before, window, start, end)
    ensures WindowBounded(cfg, created, before, window, a, start, end)
  {
    var s, m: Entries := State(created, map[]), map[];
    SimulatesAfter(cfg, s, m, created, before, start);
    AnswersConcat(cfg, s, m, before, window);
    hide Answers, After, RefAfter, Simulates;
    RateBound(cfg, After(cfg, s, before), RefAfter(cfg, m, before), a, start, end, window);
    var all := Answers(cfg, s, before + window);
    assert all[|before|..] == Answers(cfg, After(cfg, s, before), window);
  }

  lemma {:induction false} AllowedConcat(a: Addr, x: seq<Call>, y: seq<Call>, p: seq<bool>, q: seq<bool>)
    requires |x| == |p| && |y| == |q|
    ensures Allowed(a, x + y, p + q) == Allowed(a, x, p) + Allowed(a, y, q)
    decreases |x|
  {
    if x == [] {
      assert x + y == y && p + q == q;
    } else {
      assert (x + y)[0] == x[0] && (p + q)[0] == p[0];
      assert (x + y)[1..] == x[1..] + y && (p + q)[1..] == p[1..] + q;
      AllowedConcat(a, x[1..], y, p[1..], q);
    }
  }

  /** The first burst empties the bucket. */
  lemma FirstBurst(cfg: Config, a: Addr) returns (m1: Entries)
    requires cfg.Valid()
    ensures var first, s := Repeat(a, 0, cfg.burst), State(0, map[]);
            && After(cfg, s, first) == State(0, m1) && a in m1 && m1[a] == Entry(0, 0) && InRange(cfg, m1, 0)
            && Allowed(a, first, Answers(cfg, s, first)) == cfg.burst
  {
    var n, first := cfg.burst, Repeat(a, 0, cfg.burst);
    var m: Entries, s := map[], State(0, map[]);
    Spend(cfg, m, 0, a, 0, n);
    OneInstant(cfg, s, a, 0, n);
    m1 := RefAfter(cfg, m, first);
    assert Cleaned(s, 0) == s;
  }

  /** After the eviction a second one is allowed. */
  lemma SecondBurst(cfg: Config, a: Addr, m1: Entries)
    requires cfg.Valid() && InRange(cfg, m1, 0) && a in m1 && m1[a] == Entry(0, 0)
    ensures var second := Repeat(a, TTL + 1, cfg.burst);
            Allowed(a, second, Answers(cfg, State(0, m1), second)) == cfg.burst
  {
    var n, now := cfg.burst, TTL + 1;
    var kept := Cleaned(State(0, m1), now).entries;
    assert a !in kept && InRange(cfg, kept, now);
    assert Level(cfg, kept, a, now) == n * COST;
    hide Level, Cleaned, Answers, ReferenceAnswers, Repeat, RefAfter, After;
    OneInstant(cfg, State(0, m1), a, now, n);
    Spend(cfg, kept, now, a, now, n);
  }

  /** The probe is allowed two full bursts. */
  lemma ProbeIsAllowed(cfg: Config, a: Addr)
    requires cfg.Valid()
    ensures Allowed(a, Probe(cfg, a), Answers(cfg, State(0, map[]), Probe(cfg, a))) == 2 * cfg.burst
  {
    var s, first, second := State(0, map[]), Repeat(a, 0, cfg.burst), Repeat(a, TTL + 1, cfg.burst);
    var m1 := FirstBurst(cfg, a);
    SecondBurst(cfg, a, m1);
    hide Answers, After, Repeat, Allowed;
    AnswersConcat(cfg, s, map[], first, second);
    AllowedConcat(a, first, second, Answers(cfg, s, first), Answers(cfg, State(0, m1), second));
  }

  /** Every window of every run is within the rate, if and only if buckets refill in time. */
  lemma EveryWindowExactly(cfg: Config)
    requires cfg.Valid()
    ensures (forall created, before, window, a, start, end | IsWindow(created, before, window, start, end) ::
               WindowBounded(cfg, created, before, window, a, start, end))
            <==> cfg.RefillsInTime()
  {
    if cfg.RefillsInTime() {
      forall created, before, window, a, start, end | IsWindow(created, before, window, start, end)
        ensures WindowBounded(cfg, created, before, window, a, start, end)
      {
        EveryWindow(cfg, created, before, window, a, start, end);
      }
    } else {
      var probe := Probe(cfg, []);
      ProbeIsOrdered(cfg, []);
      ProbeIsAllowed(cfg, []);
      hide Answers, Allowed, Ordered;
      assert IsWindow(0, [], probe, 0, TTL + 1) by { NoCallsAreOrdered(0); }
      assert [] + probe == probe;
      var answers := Answers(cfg, State(0, map[]), probe);
      assert answers[0..] == answers;
      assert !WindowBounded(cfg, 0, [], probe, [], 0, TTL + 1);
    }
  }

  lemma NoCallsAreOrdered(t: int)
    ensures Ordered(t, [])
  {
  }

  // ---------------------------------------------------------------- exactly the affordable calls are allowed

  /** What is left of burst + rate * T for the window from call j of a to now. */
  function Left(cfg: Config, calls: seq<Call>, answers: seq<bool>, a: Addr, j: nat, now: int): int
    requires |calls| == |answers| && j < |calls|
  {
    SECOND * cfg.burst + (now - calls[j].now) * cfg.rate - SECOND * Allowed(a, calls[j..], answers[j..])
  }

  /** One more call fits into every window that begins with an earlier call of the address. */
  predicate Affordable(cfg: Config, calls: seq<Call>, answers: seq<bool>, a: Addr, now: int)
    requires |calls| == |answers|
  {
    forall j :: 0 <= j < |calls| && calls[j].addr == a ==> Left(cfg, calls, answers, a, j, now) >= SECOND
  }

  /** The level is the least of what is left in any of these windows, and of a full bucket. */
  ghost predicate IsLeast(cfg: Config, calls: seq<Call>, answers: seq<bool>, a: Addr, now: int, level: int, w: nat)
    requires |calls| == |answers|
  {
    && level <= SECOND * cfg.burst
    && (forall j :: 0 <= j < |calls| && calls[j].addr == a ==> level <= Left(cfg, calls, answers, a, j, now))
    && (level == SECOND * cfg.burst
        || (w < |calls| && calls[w].addr == a && level == Left(cfg, calls, answers, a, w, now)))
  }

  /** A later call at time c.now changes what is left by its cost and by the time since. */
  lemma LeftAppend(cfg: Config, calls: seq<Call>, answers: seq<bool>, c: Call, ok: bool, a: Addr, j: nat, now: int)
    requires |calls| == |answers| && j < |calls|
    ensures Left(cfg, calls + [c], answers + [ok], a, j, now)
            == Left(cfg, calls, answers, a, j, c.now) + (now - c.now) * cfg.rate
               - (if c.addr == a && ok then SECOND else 0)
  {
    assert (calls + [c])[j..] == calls[j..] + [c] && (answers + [ok])[j..] == answers[j..] + [ok];
    AllowedConcat(a, calls[j..], [c], answers[j..], [ok]);
    AllowedOne(a, c, ok);
    assert (now - calls[j].now) * cfg.rate == (c.now - calls[j].now) * cfg.rate + (now - c.now) * cfg.rate;
  }

  lemma AllowedOne(a: Addr, c: Call, ok: bool)
    ensures Allowed(a, [c], [ok]) == if c.addr == a && ok then 1 else 0
  {
  }

  lemma LeftLast(cfg: Config, calls: seq<Call>, answers: seq<bool>, c: Call, ok: bool, now: int)
    requires |calls| == |answers|
    ensures Left(cfg, calls + [c], answers + [ok], c.addr, |calls|, now)
            == SECOND * cfg.burst + (now - c.now) * cfg.rate - (if ok then SECOND else 0)
  {
    assert (calls + [c])[|calls|..] == [c] && (answers + [ok])[|calls|..] == [ok];
    AllowedOne(c.addr, c, ok);
  }

  /** One more call, by another address or by this one. */
  lemma LeastAppend(cfg: Config, calls: seq<Call>, answers: seq<bool>, c: Call, ok: bool, a: Addr, now: int,
                    level: int, w: nat) returns (v: nat)
    requires |calls| == |answers| && c.now <= now
    requires IsLeast(cfg, calls, answers, a, if c.addr == a then c.now else now, level, w)
    ensures c.addr != a ==> IsLeast(cfg, calls + [c], answers + [ok], a, now, level, v)
    ensures c.addr == a ==>
              var next := level - (if ok then SECOND else 0) + (now - c.now) * cfg.rate;
              IsLeast(cfg, calls + [c], answers + [ok], a, now, Min(next, SECOND * cfg.burst), v)
  {
    hide Left;
    forall j | 0 <= j < |calls|
      ensures Left(cfg, calls + [c], answers + [ok], a, j, now)
              == if c.addr == a then
                   Left(cfg, calls, answers, a, j, c.now) + (now - c.now) * cfg.rate - (if ok then SECOND else 0)
                 else Left(cfg, calls, answers, a, j, now)
    {
      LeftAppend(cfg, calls, answers, c, ok, a, j, now);
      LeftAt(cfg, calls, answers, a, j, c.now, now);
    }
    LeftLast(cfg, calls, answers, c, ok, now);
    v := if c.addr == a && level == SECOND * cfg.burst then |calls| else w;
  }

  lemma LeftAt(cfg: Config, calls: seq<Call>, answers: seq<bool>, a: Addr, j: nat, then': int, now: int)
    requires |calls| == |answers| && j < |calls|
    ensures Left(cfg, calls, answers, a, j, now)
            == Left(cfg, calls, answers, a, j, then') + (now - then') * cfg.rate
  {
    assert (now - calls[j].now) * cfg.rate == (then' - calls[j].now) * cfg.rate + (now - then') * cfg.rate;
  }

  lemma {:induction false} LevelExactly(cfg: Config, t: int, calls: seq<Call>, a: Addr, now: int) returns (w: nat)
    requires cfg.Valid() && Ordered(t, calls) && t <= now && forall k :: 0 <= k < |calls| ==> calls[k].now <= now
    ensures var m := RefAfter(cfg, map[], calls);
            IsLeast(cfg, calls, ReferenceAnswers(cfg, map[], calls), a, now, Level(cfg, m, a, now), w)
    decreases |calls|
  {
    if calls == [] {
      w := 0;
      assert RefAfter(cfg, map[], calls) == map[];
    } else {
      var front, c := calls[..|calls| - 1], calls[|calls| - 1];
      assert calls == front + [c];
      OrderedEnds(t, front, c);
      hide IsLeast, Ordered, RefAfter, ReferenceAnswers, Take, Level;
      var m, then' := RefAfter(cfg, map[], front), if c.addr == a then c.now else now;
      RefAppend(cfg, map[], front, c);
      TakeLevel(cfg, m, c, a, now);
      var u := LevelExactly(cfg, t, front, a, then');
      w := LeastAppend(cfg, front, ReferenceAnswers(cfg, map[], front), c, Take(cfg, m, c).1, a, now,
                       Level(cfg, m, a, then'), u);
    }
  }

  /** The level some time after a call. */
  lemma TakeLevel(cfg: Config, m: Entries, c: Call, a: Addr, now: int)
    ensures var (m', ok) := Take(cfg, m, c);
            Level(cfg, m', a, now)
            == if c.addr != a then Level(cfg, m, a, now)
               else Min(Level(cfg, m, a, c.now) - (if ok then SECOND else 0) + (now - c.now) * cfg.rate,
                        SECOND * cfg.burst)
  {
  }

  lemma RefAppend(cfg: Config, m: Entries, calls: seq<Call>, c: Call)
    ensures var (m', ok) := Take(cfg, RefAfter(cfg, m, calls), c);
            && RefAfter(cfg, m, calls + [c]) == m'
            && ReferenceAnswers(cfg, m, calls + [c]) == ReferenceAnswers(cfg, m, calls) + [ok]
  {
    hide Take;
    AnswersConcat(cfg, State(0, map[]), m, calls, [c]);
    RefConcat(cfg, m, calls, c);
    var m1 := RefAfter(cfg, m, calls);
    assert [c][1..] == [];
    assert ReferenceAnswers(cfg, m1, [c]) == [Take(cfg, m1, c).1] + ReferenceAnswers(cfg, Take(cfg, m1, c).0, []);
  }

  lemma {:induction false} RefConcat(cfg: Config, m: Entries, calls: seq<Call>, c: Call)
    ensures RefAfter(cfg, m, calls + [c]) == Take(cfg, RefAfter(cfg, m, calls), c).0
    decreases |calls|
  {
    hide Take;
    var all := calls + [c];
    if calls == [] {
      assert all[0] == c && all[1..] == [];
    } else {
      assert all[0] == calls[0] && all[1..] == calls[1..] + [c];
      RefConcat(cfg, Take(cfg, m, calls[0]).0, calls[1..], c);
    }
  }

  /**
   A new limiter whose buckets refill in time allows a call, if and only if every window that ends
   with it then has at most burst + rate * T allowed calls of its address.
   */
  lemma AllowedExactly(cfg: Config, created: int, calls: seq<Call>, c: Call)
    requires cfg.Valid() && cfg.RefillsInTime() && Ordered(created, calls + [c])
    ensures var s := State(created, map[]);
            Answers(cfg, s, calls + [c])[|calls|] <==> Affordable(cfg, calls, Answers(cfg, s, calls), c.addr, c.now)
  {
    OrderedEnds(created, calls, c);
    EvictionIsInvisible(cfg, State(created, map[]), map[], created, calls);
    EvictionIsInvisible(cfg, State(created, map[]), map[], created, calls + [c]);
    RefAppend(cfg, map[], calls, c);
    hide Answers, ReferenceAnswers, RefAfter, Ordered, Left;
    var w := LevelExactly(cfg, created, calls, c.addr, c.now);
    assert cfg.burst * SECOND >= SECOND;
  }

  // ---------------------------------------------------------------- 64-bit arithmetic

  /** No entry is older than the retention at the last cleanup. */
  ghost predicate Recent(s: State) {
    forall a :: a in s.entries ==> s.lastCleanup - s.entries[a].last <= TTL
  }

  /** What every call of a run meets: entries are recent, in range and not from the future. */
  ghost predicate Kept(cfg: Config, s: State, t: int) {
    Recent(s) && InRange(cfg, s.entries, t) && s.lastCleanup <= t
  }

  lemma AllowKeeps(cfg: Config, s: State, t: int, c: Call)
    requires cfg.Valid() && Kept(cfg, s, t) && t <= c.now
    ensures Kept(cfg, Allow(cfg, s, c).0, c.now)
  {
    hide Take, Level;
    TakeTouchesOne(cfg, Cleaned(s, c.now).entries, c);
    assert InRange(cfg, Cleaned(s, c.now).entries, t);
    TakeKeepsRange(cfg, Cleaned(s, c.now).entries, t, c);
  }

  lemma {:induction false} RunKeeps(cfg: Config, s: State, t: int, calls: seq<Call>, end: int)
    requires cfg.Valid() && Kept(cfg, s, t) && Ordered(t, calls) && t <= end
    requires forall k :: 0 <= k < |calls| ==> calls[k].now <= end
    ensures Kept(cfg, After(cfg, s, calls), end)
    decreases |calls|
  {
    hide Allow;
    if calls != [] {
      AllowKeeps(cfg, s, t, calls[0]);
      RunKeeps(cfg, Allow(cfg, s, calls[0]).0, calls[0].now, calls[1..], end);
    }
  }

  /** A refill spans less than 11 seconds, and its product and its sum fit a signed 64-bit number. */
  ghost predicate SmallRefill(cfg: Config, s: State, c: Call) {
    c.addr in Cleaned(s, c.now).entries ==>
      var e := Cleaned(s, c.now).entries[c.addr];
      && 0 <= c.now - e.last < 11 * SECOND
      && 0 <= (c.now - e.last) * cfg.rate < TWO63
      && 0 <= e.tokens + (c.now - e.last) * cfg.rate < TWO63
  }

  lemma RefillIsSmall(cfg: Config, s: State, t: int, c: Call)
    requires cfg.Valid() && Kept(cfg, s, t) && t <= c.now
    requires (11 * cfg.rate + cfg.burst) * SECOND < TWO63
    ensures SmallRefill(cfg, s, c)
  {
    if c.addr in Cleaned(s, c.now).entries {
      var e := Cleaned(s, c.now).entries[c.addr];
      Grows(0, c.now - e.last, cfg.rate);
      Grows(c.now - e.last, 11 * SECOND, cfg.rate);
      assert (11 * cfg.rate + cfg.burst) * SECOND == 11 * SECOND * cfg.rate + cfg.burst * SECOND;
    }
  }

  /** In every ordered run of a new limiter, every call's token arithmetic stays within 64 bits. */
  lemma EveryRefillIsSmall(cfg: Config, created: int, before: seq<Call>, c: Call)
    requires cfg.Valid() && (11 * cfg.rate + cfg.burst) * SECOND < TWO63
    requires Ordered(created, before + [c])
    ensures SmallRefill(cfg, After(cfg, State(created, map[]), before), c)
  {
    OrderedEnds(created, before, c);
    RunKeeps(cfg, State(created, map[]), created, before, c.now);
    hide Kept, SmallRefill, After;
    RefillIsSmall(cfg, After(cfg, State(created, map[]), before), c.now, c);
  }

  lemma {:induction false} OrderedEnds(t: int, before: seq<Call>, c: Call)
    requires Ordered(t, before + [c])
    ensures Ordered(t, before) && t <= c.now && forall k :: 0 <= k < |before| ==> before[k].now <= c.now
    decreases |before|
  {
    var calls := before + [c];
    if before != [] {
      assert calls[0] == before[0] && calls[1..] == before[1..] + [c];
      OrderedEnds(before[0].now, before[1..], c);
      forall k | 0 <= k < |before|
        ensures before[k].now <= c.now
      {
        if k > 0 { assert before[k] == before[1..][k - 1]; }
      }
    }
  }

  lemma TakeTouchesOne(cfg: Config, m: Entries, c: Call)
    ensures var m' := Take(cfg, m, c).0;
            && m'.Keys == m.Keys + {c.addr} && m'[c.addr].last == c.now
            && forall a :: a in m && a != c.addr ==> m'[a] == m[a]
  {
  }

  // ---------------------------------------------------------------- the object

  class IPRateLimiter {
    const cfg: Config
    var lastCleanup: int
    var entries: Entries

    ghost function Abstract(): State
      reads this
    {
      State(lastCleanup, entries)
    }

    constructor (ratePerSecond: int, burst: int, now: int)
      ensures cfg == Config(if ratePerSecond <= 0 then 20 else ratePerSecond, if burst <= 0 then 5 else burst)
      ensures cfg.Valid() && Abstract() == State(now, map[])
      ensures Simulates(cfg, Abstract(), map[], now) && Kept(cfg, Abstract(), now)
    {
      cfg := Config(if ratePerSecond <= 0 then 20 else ratePerSecond, if burst <= 0 then 5 else burst);
      lastCleanup, entries := now, map[];
    }

    /** An invalid address is always allowed. */
    method AllowAddr(addr: Option<Addr>, now: int) returns (ok: bool)
      modifies this
      ensures addr.None? ==> ok && Abstract() == old(Abstract())
      ensures addr.Some? ==> (Abstract(), ok) == Allow(cfg, old(Abstract()), Call(addr.value, now))
    {
      if addr.None? { return true; }
      var a := addr.value;
      if now - lastCleanup >= SECOND {
        ghost var before := entries;
        var keys := entries.Keys;
        while keys != {}
          modifies this`entries
          invariant keys <= before.Keys
          invariant forall k :: k in entries ==> k in before && entries[k] == before[k]
          invariant forall k :: k in before && (k in keys || now - before[k].last <= TTL) ==> k in entries
          invariant forall k :: k in entries && k !in keys ==> now - before[k].last <= TTL
          decreases keys
        {
          var k :| k in keys;
          if now - entries[k].last > TTL {
            entries := entries - {k};
          }
          keys := keys - {k};
        }
        lastCleanup := now;
      }
      assert Abstract() == Cleaned(old(Abstract()), now);
      var maxTokens := cfg.burst * SECOND;
      if a !in entries {
        entries := entries[a := Entry(now, maxTokens - COST)];
        return true;
      }
      var tokens := entries[a].tokens + (now - entries[a].last) * cfg.rate;
      if tokens > maxTokens {
        tokens := maxTokens;
      }
      if tokens < COST {
        entries := entries[a := Entry(now, tokens)];
        return false;
      }
      entries := entries[a := Entry(now, tokens - COST)];
      ok := true;
    }
  }
}
