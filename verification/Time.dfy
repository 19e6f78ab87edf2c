/** millis, micros and delay on a down-counter whose underflows are counted by an interrupt. */
module Time {
  import opened Alignment
  import opened Bytes

  /** The microseconds below a millisecond, in 32-bit arithmetic. */
  function SubMillis(upCounts: nat, period: nat): (f: nat)
    requires period > 0
  {
    W32(upCounts * 1000) / period
  }

  /** One counter clock, or a chance for the pending interrupt to be taken. */
  datatype Event = Tick | Interrupt

  /** True time and what the software knows of it: `wraps` underflows have happened and `up` clocks since the last one;
      at the last interrupt there had been `seen` of them, and `lost` were never counted. */
  datatype Clock = Clock(wraps: nat, up: nat, seen: nat, lost: nat)

  ghost predicate Sensible(c: Clock, period: nat) { c.up < period && c.lost <= c.seen <= c.wraps }

  ghost function Step(c: Clock, e: Event, enabled: bool, period: nat): Clock {
    match e
    case Tick => if c.up + 1 >= period then c.(wraps := c.wraps + 1, up := 0) else c.(up := c.up + 1)
    case Interrupt =>
      if enabled && c.wraps > c.seen then c.(seen := c.wraps, lost := c.lost + (c.wraps - c.seen - 1)) else c
  }

  ghost function Run(c: Clock, s: seq<Event>, enabled: bool, period: nat): Clock {
    if s == [] then c else Step(Run(c, s[..|s| - 1], enabled, period), s[|s| - 1], enabled, period)
  }

  ghost function Ticks(s: seq<Event>): nat {
    if s == [] then 0 else Ticks(s[..|s| - 1]) + if s[|s| - 1] == Tick then 1 else 0
  }

  /** Counter clocks since the start. */
  ghost function Now(c: Clock, period: nat): nat { c.wraps * period + c.up }

  /** True microseconds since the start, rounded down; a period is a millisecond. */
  ghost function TrueMicros(c: Clock, period: nat): nat
    requires period > 0
  {
    Now(c, period) * 1000 / period
  }

  lemma StepNow(c: Clock, e: Event, enabled: bool, period: nat)
    requires Sensible(c, period)
    ensures Sensible(Step(c, e, enabled, period), period)
    ensures Now(Step(c, e, enabled, period), period) == Now(c, period) + if e == Tick then 1 else 0
    ensures Step(c, e, enabled, period).wraps >= c.wraps
  {
    assert (c.wraps + 1) * period == c.wraps * period + period;
  }

  /** Time advances by the clocks of the schedule, whatever the interrupts do; with the interrupt masked, the
      software's knowledge stays as it is. */
  lemma {:induction false} RunNow(c: Clock, s: seq<Event>, enabled: bool, period: nat)
    requires Sensible(c, period)
    ensures var d := Run(c, s, enabled, period);
            && Sensible(d, period) && Now(d, period) == Now(c, period) + Ticks(s) && d.wraps >= c.wraps
            && (!enabled ==> d.seen == c.seen && d.lost == c.lost)
  {
    if s != [] {
      RunNow(c, s[..|s| - 1], enabled, period);
      StepNow(Run(c, s[..|s| - 1], enabled, period), s[|s| - 1], enabled, period);
    }
  }

  lemma {:induction false} RunAppend(c: Clock, s: seq<Event>, t: seq<Event>, enabled: bool, period: nat)
    ensures Run(c, s + t, enabled, period) == Run(Run(c, s, enabled, period), t, enabled, period)
  {
    if t == [] {
      assert s + t == s;
    } else {
      assert (s + t)[..|s + t| - 1] == s + t[..|t| - 1];
      RunAppend(c, s, t[..|t| - 1], enabled, period);
    }
  }

  /** Clocks since the interrupt was last given a chance, when there had been `r` before `s`. */
  ghost function SinceChance(s: seq<Event>, r: nat): nat {
    if s == [] then r
    else if s[|s| - 1] == Interrupt then 0
    else 1 + SinceChance(s[..|s| - 1], r)
  }

  lemma NowAtLeast(c: Clock, k: nat, period: nat)
    requires Sensible(c, period) && c.wraps >= k
    ensures Now(c, period) >= k * period
    ensures Now(c, period) < (c.wraps + 1) * period
  {
    MulMono(period, k, c.wraps);
    assert (c.wraps + 1) * period == c.wraps * period + period;
  }

  /** At most one underflow waits to be counted when the interrupt had its last chance at most a period ago. */
  lemma AtMostOneWaiting(c: Clock, r: nat, period: nat)
    requires Sensible(c, period) && Now(c, period) < (c.seen + 1) * period + r && r <= period
    ensures c.wraps <= c.seen + 1
  {
    assert (c.seen + 2) * period == (c.seen + 1) * period + period;
    if c.wraps >= c.seen + 2 {
      NowAtLeast(c, c.seen + 2, period);
    }
  }

  lemma NothingLostStep(c: Clock, e: Event, r: nat, period: nat)
    requires Sensible(c, period) && Now(c, period) < (c.seen + 1) * period + r && r <= period
    ensures var d := Step(c, e, true, period);
            d.lost == c.lost && Now(d, period) < (d.seen + 1) * period + if e == Tick then 1 + r else 0
  {
    hide Now;
    StepNow(c, e, true, period);
    AtMostOneWaiting(c, r, period);
    NowAtLeast(c, c.wraps, period);
  }

  /** As long as the interrupt gets a chance at least once a period, every underflow is counted, and at most one
      waits to be. */
  lemma {:induction false} NothingLost(c: Clock, s: seq<Event>, r: nat, period: nat)
    requires Sensible(c, period) && Now(c, period) < (c.seen + 1) * period + r
    requires forall i :: 0 <= i <= |s| ==> SinceChance(s[..i], r) <= period
    ensures var d := Run(c, s, true, period);
            && d.lost == c.lost && d.wraps <= d.seen + 1
            && Now(d, period) < (d.seen + 1) * period + SinceChance(s, r)
  {
    hide Now, Step;
    assert s[..|s|] == s;
    if s != [] {
      var t := s[..|s| - 1];
      forall i | 0 <= i <= |t| ensures SinceChance(t[..i], r) <= period {
        assert t[..i] == s[..i];
      }
      NothingLost(c, t, r, period);
      assert t[..|t|] == t;
      RunNow(c, t, true, period);
      NothingLostStep(Run(c, t, true, period), s[|s| - 1], SinceChance(t, r), period);
    }
    RunNow(c, s, true, period);
    AtMostOneWaiting(Run(c, s, true, period), SinceChance(s, r), period);
  }

  // What micros computes.

  /** The software's milliseconds are behind the underflows by this much. */
  ghost function Lag(c: Clock): int { c.wraps - c.seen + c.lost }

  /** What micros adds: `at` is when it reads the counter, `flagAt` when it reads the flag. */
  ghost function Correction(at: Clock, flagAt: Clock, period: nat): (b: int)
    ensures 0 <= b <= 1
  {
    if flagAt.wraps > flagAt.seen && period - 1 - at.up > period / 2 then 1 else 0
  }

  /** The part below a millisecond adds to the whole ones, and none of it overflows. */
  lemma MicrosParts(c: Clock, period: nat)
    requires 0 < period <= 0x1_0000 && Sensible(c, period)
    ensures c.up * 1000 < U32 && SubMillis(c.up, period) == c.up * 1000 / period < 1000
    ensures TrueMicros(c, period) == c.wraps * 1000 + SubMillis(c.up, period)
  {
    var x, q := c.up * 1000, c.up * 1000 / period;
    assert x == period * q + x % period;
    assert Now(c, period) * 1000 == period * (c.wraps * 1000 + q) + x % period by {
      assert Now(c, period) * 1000 == (c.wraps * period) * 1000 + x;
      assert (c.wraps * period) * 1000 == period * (c.wraps * 1000);
      assert period * (c.wraps * 1000) + period * q == period * (c.wraps * 1000 + q);
    }
    DivUnique(Now(c, period) * 1000, period, c.wraps * 1000 + q, x % period);
    if q >= 1000 {
      MulMono(period, 1000, q);
    }
  }

  lemma AddMod(a: int, b: int, k: int)
    requires a == b + U32 * k
    ensures W32(a) == W32(b)
  {
    DivUnique(a, U32, b / U32 + k, b % U32);
  }

  /** Milliseconds that are `lag` short, corrected by `b`, give the true result exactly if the two are equal modulo
      2^29: a thousand times that is a multiple of 2^32. */
  lemma ShortBy(wraps: nat, lag: int, b: int, frac: nat, ms: u32)
    requires ms == W32(wraps - lag + b)
    ensures W32(W32(ms * 1000) + frac) == W32(wraps * 1000 + frac - 1000 * (lag - b))
    ensures W32(W32(ms * 1000) + frac) == W32(wraps * 1000 + frac) <==> (lag - b) % 0x2000_0000 == 0
  {
    var k, l := (wraps - lag + b) / U32, (ms * 1000) / U32;
    assert wraps - lag + b == U32 * k + ms;
    assert ms * 1000 == U32 * l + W32(ms * 1000);
    var want, got := wraps * 1000 + frac, W32(ms * 1000) + frac;
    assert got == want + 1000 * (b - lag) - U32 * (1000 * k + l);
    AddMod(got, want - 1000 * (lag - b), 0 - (1000 * k + l));
    if (lag - b) % 0x2000_0000 == 0 {
      var q := (lag - b) / 0x2000_0000;
      assert 1000 * (b - lag) == U32 * (0 - 125 * q);
      AddMod(got, want, 0 - 125 * q - (1000 * k + l));
    } else if W32(got) == W32(want) {
      var q := got / U32 - want / U32;
      assert got - want == U32 * q;
      assert 1000 * (b - lag) == U32 * (q + 1000 * k + l);
      Multiple(lag - b, 0 - (q + 1000 * k + l));
    }
  }

  lemma Multiple(x: int, q: int)
    requires 1000 * x == U32 * q
    ensures x % 0x2000_0000 == 0
  {
    // 125 has an inverse modulo 2^29.
    assert x == 0x2000_0000 * (115964117 * q - 27 * x);
  }

  /** When micros is exact, if nothing was lost: at most one underflow waits when the counter is read, that one is less
      than half a period old, and none happens before the flag is read if the counter was in its first half. */
  lemma ExactExactly(at: Clock, gap: nat, flagAt: Clock, period: nat)
    requires period > 0 && Sensible(at, period) && Sensible(flagAt, period) && at.lost == 0
    requires Now(flagAt, period) == Now(at, period) + gap && flagAt.seen == at.seen && flagAt.wraps >= at.wraps
    ensures Lag(at) == Correction(at, flagAt, period) <==>
            && at.wraps <= at.seen + 1
            && (at.wraps == at.seen + 1 ==> at.up < period - 1 - period / 2)
            && (at.wraps == at.seen && at.up < period - 1 - period / 2 ==> at.up + gap < period)
  {
    if at.wraps == at.seen {
      NowAtLeast(flagAt, flagAt.wraps, period);
      assert (at.wraps + 1) * period == at.wraps * period + period;
      if flagAt.wraps > at.seen {
        NowAtLeast(flagAt, at.wraps + 1, period);
      }
    }
  }

  lemma {:induction false} TicksAppend(s: seq<Event>, t: seq<Event>)
    ensures Ticks(s + t) == Ticks(s) + Ticks(t)
  {
    if t == [] {
      assert s + t == s;
    } else {
      assert (s + t)[..|s + t| - 1] == s + t[..|t| - 1];
      TicksAppend(s, t[..|t| - 1]);
    }
  }

  /** For every interleaving: micros is exact if nothing was lost, at most one underflow waits at the call and the
      counter is read less than half a period after it (or after the call, if none waits), and the flag is read at
      most half a period after the counter. */
  lemma ExactUnderGuards(c0: Clock, a: seq<Event>, b: seq<Event>, c: seq<Event>, period: nat)
    requires period > 0 && Sensible(c0, period) && c0.lost == 0 && c0.wraps <= c0.seen + 1
    requires (if c0.wraps == c0.seen then 0 else c0.up) + Ticks(a) + Ticks(b) < period - 1 - period / 2
    requires Ticks(c) <= period / 2 + 1
    ensures var at := Run(c0, a + b, false, period);
            Lag(at) == Correction(at, Run(at, c, false, period), period)
  {
    hide Run, Ticks;
    var at := Run(c0, a + b, false, period);
    TicksAppend(a, b);
    RunNow(c0, a + b, false, period);
    RunNow(at, c, false, period);
    ReadSoon(c0, Ticks(a + b), at, period);
    ExactExactly(at, Ticks(c), Run(at, c, false, period), period);
  }

  /** Over every run from the start in which the interrupt gets a chance at least once a period, and every interleaving
      of the call: micros is exact under the guards alone. */
  lemma ExactOverRuns(s: seq<Event>, a: seq<Event>, b: seq<Event>, c: seq<Event>, period: nat)
    requires period > 0 && forall i :: 0 <= i <= |s| ==> SinceChance(s[..i], 0) <= period
    requires var c0 := Run(Clock(0, 0, 0, 0), s, true, period);
             (if c0.wraps == c0.seen then 0 else c0.up) + Ticks(a) + Ticks(b) < period - 1 - period / 2
    requires Ticks(c) <= period / 2 + 1
    ensures var at := Run(Run(Clock(0, 0, 0, 0), s, true, period), a + b, false, period);
            Lag(at) == Correction(at, Run(at, c, false, period), period)
  {
    hide Run, Ticks, SinceChance;
    var start := Clock(0, 0, 0, 0);
    assert Now(start, period) == 0 < (start.seen + 1) * period;
    NothingLost(start, s, 0, period);
    RunNow(start, s, true, period);
    ExactUnderGuards(Run(start, s, true, period), a, b, c, period);
  }

  lemma ReadSoon(c0: Clock, n: nat, at: Clock, period: nat)
    requires period > 0 && Sensible(c0, period) && Sensible(at, period) && c0.wraps <= c0.seen + 1
    requires (if c0.wraps == c0.seen then 0 else c0.up) + n < period - 1 - period / 2
    requires Now(at, period) == Now(c0, period) + n && at.wraps >= c0.wraps && at.seen == c0.seen
    ensures at.wraps <= at.seen + 1 && (at.wraps == at.seen + 1 ==> at.up < period - 1 - period / 2)
  {
    assert (c0.wraps + 1) * period == c0.wraps * period + period;
    assert (c0.wraps + 2) * period == c0.wraps * period + 2 * period;
    if at.wraps >= c0.wraps + 2 {
      NowAtLeast(at, c0.wraps + 2, period);
    } else if at.wraps == c0.wraps + 1 {
      assert at.up == c0.up + n - period;
    } else {
      assert at.wraps == c0.wraps;
    }
  }

  /** The first guard is needed, and cannot be weaker: half a period after an uncounted underflow, micros is a
      millisecond short. */
  lemma LateReadIsShort(period: nat)
    requires period > 0
    ensures var at := Clock(1, period - 1 - period / 2, 0, 0);
            Sensible(at, period) && Lag(at) == 1 && Correction(at, at, period) == 0
  {
  }

  /** So is the second: with a longer gap, an underflow after the counter was read is taken for one before it. */
  lemma LongGapIsOver(period: nat)
    requires period >= 4
    ensures var at, flagAt := Clock(0, period - 2 - period / 2, 0, 0), Clock(1, 0, 0, 0);
            && Sensible(at, period) && Sensible(flagAt, period)
            && Now(flagAt, period) == Now(at, period) + period / 2 + 2
            && Lag(at) == 0 && Correction(at, flagAt, period) == 1
  {
  }

  /** Two exact results never go backwards: their 32-bit difference is the true time between them, up to 2^32. */
  lemma ElapsedExact(c: Clock, d: Clock, period: nat, r: u32, q: u32)
    requires period > 0 && Now(c, period) <= Now(d, period)
    requires r == W32(TrueMicros(c, period)) && q == W32(TrueMicros(d, period))
    requires TrueMicros(d, period) - TrueMicros(c, period) < U32
    ensures 0 <= W32(q - r) == TrueMicros(d, period) - TrueMicros(c, period)
  {
    hide TrueMicros, W32;
    MicrosMono(c, d, period);
    DifferenceOfCounts(TrueMicros(d, period), TrueMicros(c, period), q, r);
    Small(TrueMicros(d, period) - TrueMicros(c, period));
  }

  lemma MicrosMono(c: Clock, d: Clock, period: nat)
    requires period > 0 && Now(c, period) <= Now(d, period)
    ensures TrueMicros(c, period) <= TrueMicros(d, period)
  {
    hide Now;
    UnitNoMono(Now(c, period) * 1000, Now(d, period) * 1000, period);
  }

  lemma Small(x: int)
    requires 0 <= x < U32
    ensures W32(x) == x
  {
  }

  /** What the interrupt has counted. */
  ghost function Counted(c: Clock): int { c.seen - c.lost }

  ghost function AfterPolls(c: Clock, polls: seq<seq<Event>>, k: nat, enabled: bool, period: nat): Clock
    requires k <= |polls|
  {
    if k == 0 then c else Run(AfterPolls(c, polls, k - 1, enabled, period), polls[k - 1], enabled, period)
  }

  lemma {:induction false} PollsGrow(c: Clock, polls: seq<seq<Event>>, k: nat, enabled: bool, period: nat)
    requires Sensible(c, period) && k <= |polls|
    ensures var d := AfterPolls(c, polls, k, enabled, period);
            Sensible(d, period) && d.lost >= c.lost && Counted(d) >= Counted(c)
  {
    if k > 0 {
      PollsGrow(c, polls, k - 1, enabled, period);
      var d := AfterPolls(c, polls, k - 1, enabled, period);
      LostGrows(d, polls[k - 1], enabled, period);
      RunNow(d, polls[k - 1], enabled, period);
    }
  }

  lemma {:induction false} LostGrows(c: Clock, s: seq<Event>, enabled: bool, period: nat)
    requires Sensible(c, period)
    ensures var d := Run(c, s, enabled, period); d.lost >= c.lost && Counted(d) >= Counted(c)
  {
    if s != [] {
      LostGrows(c, s[..|s| - 1], enabled, period);
    }
  }

  /** delay never returns early: by then at least `ms` underflows have happened that were not counted at its start,
      and if none was waiting then, more than `ms` - 1 whole periods have passed. */
  lemma DelayIsLongEnough(c: Clock, polls: seq<seq<Event>>, k: nat, enabled: bool, period: nat, ms: u32)
    requires Sensible(c, period) && k <= |polls|
    requires W32(Counted(AfterPolls(c, polls, k, enabled, period)) - Counted(c)) >= ms
    ensures var d := AfterPolls(c, polls, k, enabled, period);
            && d.wraps >= c.seen + ms
            && (c.wraps == c.seen ==> Now(d, period) > Now(c, period) + (ms - 1) * period)
  {
    hide Now;
    var d := AfterPolls(c, polls, k, enabled, period);
    PollsGrow(c, polls, k, enabled, period);
    AtLeastMod(Counted(d) - Counted(c));
    NowAtLeast(d, c.seen + ms, period);
    NowAtLeast(c, c.wraps, period);
    assert (c.seen + ms) * period == (c.seen + 1) * period + (ms - 1) * period;
  }

  lemma AtLeastMod(x: nat)
    ensures W32(x) <= x
  {
  }

  class Agt {
    const period: nat
    var counter: nat
    var tundf: bool
    var irqEnabled: bool
    var agtTimeMs: u32
    ghost var wraps: nat
    ghost var seen: nat
    ghost var lost: nat

    ghost function State(): Clock
      reads this
    {
      Clock(wraps, if counter < period then period - 1 - counter else 0, seen, lost)
    }

    ghost predicate Valid()
      reads this
    {
      && 0 < period <= 0x1_0000 && counter < period
      && lost <= seen <= wraps
      && (tundf <==> wraps > seen)
      && agtTimeMs == W32(seen - lost)
    }

    constructor (period: nat)
      requires 0 < period <= 0x1_0000
      ensures Valid() && this.period == period && State() == Clock(0, 0, 0, 0) && irqEnabled
    {
      this.period := period;
      counter, tundf, irqEnabled, agtTimeMs := period - 1, false, true, 0;
      wraps, seen, lost := 0, 0, 0;
    }

    /** The hardware: the counter runs down, and on underflow is reloaded and the flag goes up. */
    method CountDown()
      requires Valid()
      modifies `counter, `tundf, `wraps
      ensures Valid() && State() == Step(old(State()), Tick, irqEnabled, period)
    {
      if counter == 0 {
        counter, tundf, wraps := period - 1, true, wraps + 1;
      } else {
        counter := counter - 1;
      }
    }

    /** The interrupt: the driver takes the flag down and calls back. */
    method TimerMicrosCallback()
      requires Valid() && tundf
      modifies `agtTimeMs, `tundf, `seen, `lost
      ensures Valid() && State() == Step(old(State()), Interrupt, true, period)
    {
      ghost var before := seen - lost;
      agtTimeMs := W32(agtTimeMs + 1);
      tundf := false;
      lost := lost + (wraps - seen - 1);
      seen := wraps;
      OneMore(before);
    }

    /** Time passes, with every interleaving of counter clocks and chances for the interrupt that `s` stands for. */
    method Elapse(s: seq<Event>)
      requires Valid()
      modifies `counter, `tundf, `wraps, `agtTimeMs, `seen, `lost
      ensures Valid() && State() == Run(old(State()), s, irqEnabled, period)
    {
      hide Step;
      ghost var c := State();
      var i := 0;
      while i < |s|
        invariant 0 <= i <= |s| && Valid() && State() == Run(c, s[..i], irqEnabled, period)
      {
        assert s[..i + 1][..i] == s[..i];
        if s[i] == Tick {
          CountDown();
        } else if irqEnabled && tundf {
          TimerMicrosCallback();
        } else {
          NotTaken(State(), irqEnabled, period);
        }
        i := i + 1;
      }
      assert s[..i] == s;
    }

    method Millis() returns (r: u32)
      requires Valid()
      ensures r == W32(Counted(State()))
    {
      r := agtTimeMs;
    }

    /** Wait until the milliseconds have advanced by `ms`; `polls` is what happens between one look and the next. */
    method Delay(ms: u32, polls: seq<seq<Event>>) returns (done: bool, k: nat)
      requires Valid()
      modifies `counter, `tundf, `wraps, `agtTimeMs, `seen, `lost
      ensures Valid() && k <= |polls| && State() == AfterPolls(old(State()), polls, k, irqEnabled, period)
      ensures forall j :: 0 <= j < k ==>
                W32(Counted(AfterPolls(old(State()), polls, j, irqEnabled, period)) - Counted(old(State()))) < ms
      ensures done <==> W32(Counted(State()) - Counted(old(State()))) >= ms
      ensures !done ==> k == |polls|
    {
      hide W32, Run;
      ghost var c := State();
      var start := Millis();
      k := 0;
      while true
        invariant k <= |polls| && Valid() && State() == AfterPolls(c, polls, k, irqEnabled, period)
        invariant forall j :: 0 <= j < k ==> W32(Counted(AfterPolls(c, polls, j, irqEnabled, period)) - Counted(c)) < ms
        decreases |polls| - k
      {
        var now: int := Millis();
        DifferenceOfCounts(Counted(State()), Counted(c), now, start);
        if W32(now - start) >= ms {
          return true, k;
        }
        if k == |polls| {
          return false, k;
        }
        Elapse(polls[k]);
        k := k + 1;
      }
    }

    /** `a`, `b`, `c`, `d` and `e` are what happens before the milliseconds are read, from there to the counter, from
        there to the flag, from there to the end of masking, and after it. */
    method Micros(a: seq<Event>, b: seq<Event>, c: seq<Event>, d: seq<Event>, e: seq<Event>)
      returns (r: u32, ghost at: Clock, ghost flagAt: Clock)
      requires Valid()
      modifies this
      ensures Valid() && irqEnabled
      ensures at == Run(old(State()), a + b, false, period) && flagAt == Run(at, c, false, period)
      ensures State() == Run(Run(flagAt, d, false, period), e, true, period)
      ensures Sensible(at, period)
      ensures r == W32(TrueMicros(at, period) - 1000 * (Lag(at) - Correction(at, flagAt, period)))
      ensures r == W32(TrueMicros(at, period)) <==> (Lag(at) - Correction(at, flagAt, period)) % 0x2000_0000 == 0
      ensures 0 <= Lag(at) < 0x2000_0000 ==>
                (r == W32(TrueMicros(at, period)) <==> Lag(at) == Correction(at, flagAt, period))
    {
      hide Run, Step, W32, SubMillis, Now, TrueMicros, Correction;
      ghost var c0 := State();
      irqEnabled := false;
      Elapse(a);
      var ms: int := agtTimeMs;
      ghost var c1 := State();
      Elapse(b);
      at := State();
      RunAppend(c0, a, b, false, period);
      RunNow(c1, b, false, period);
      var downCounts := counter;
      Elapse(c);
      flagAt := State();
      RunNow(at, c, false, period);
      ghost var before := ms;
      var half := period / 2;
      CorrectionIs(at, flagAt, tundf, downCounts, period);
      if tundf && downCounts > half {
        ms := W32(ms + 1);
      }
      Elapse(d);
      irqEnabled := true;
      Elapse(e);
      var upCounts := period - 1 - downCounts;
      r := W32(W32(ms * 1000) + SubMillis(upCounts, period));
      Corrected(at, flagAt, period, before, ms, r);
    }
  }

  lemma OneMore(x: int)
    ensures W32(W32(x) + 1) == W32(x + 1)
  {
    AddMod(x + 1, W32(x) + 1, x / U32);
  }

  lemma DifferenceOfCounts(x: int, y: int, now: u32, start: u32)
    requires now == W32(x) && start == W32(y)
    ensures W32(now - start) == W32(x - y)
  {
    AddMod(x - y, now - start, x / U32 - y / U32);
  }

  lemma NotTaken(c: Clock, enabled: bool, period: nat)
    requires !(enabled && c.wraps > c.seen)
    ensures Step(c, Interrupt, enabled, period) == c
  {
  }

  lemma CorrectionIs(at: Clock, flagAt: Clock, flag: bool, down: int, period: nat)
    requires flag <==> flagAt.wraps > flagAt.seen
    requires down == period - 1 - at.up
    ensures Correction(at, flagAt, period) == if flag && down > period / 2 then 1 else 0
  {
  }

  lemma Corrected(at: Clock, flagAt: Clock, period: nat, before: u32, ms: u32, r: u32)
    requires 0 < period <= 0x1_0000 && Sensible(at, period)
    requires before == W32(at.wraps - Lag(at))
    requires ms == if Correction(at, flagAt, period) == 1 then W32(before + 1) else before
    requires r == W32(W32(ms * 1000) + SubMillis(at.up, period))
    ensures r == W32(TrueMicros(at, period) - 1000 * (Lag(at) - Correction(at, flagAt, period)))
    ensures r == W32(TrueMicros(at, period)) <==> (Lag(at) - Correction(at, flagAt, period)) % 0x2000_0000 == 0
    ensures 0 <= Lag(at) < 0x2000_0000 ==>
              (r == W32(TrueMicros(at, period)) <==> Lag(at) == Correction(at, flagAt, period))
  {
    hide TrueMicros, W32, SubMillis;
    MicrosParts(at, period);
    OneMore(at.wraps - Lag(at));
    ShortBy(at.wraps, Lag(at), Correction(at, flagAt, period), SubMillis(at.up, period), ms);
  }
}
