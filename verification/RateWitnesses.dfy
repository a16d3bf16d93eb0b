/** Runs that fill a feed gap with as many ticks as the rates of the two clocks allow: the rate
    hypotheses are met by them, and the bounds drawn from those are attained. */
module RateWitnesses {
  import opened Firmware
  import opened Blinker
  import opened Chronicle
  import opened Coupling
  import opened Pacing

  /** Both rates are kept. */
  ghost predicate Timed(r: Run, b: nat, p: nat, k: nat) {
    RatedRun(r, b, p) && SpacedRun(r, b, k)
  }

  /** A step of a system_init that no tick disturbs. */
  lemma InitStepEnds(r: Run)
    requires End(r).m.pc.Init?
    ensures var w, step := End(r), End(r).m.pc.step;
            End(After(r, Main)) == World(ExecInit(w.m, step), ObserveInit(w.m, w.h, step), w.resets)
  {
  }

  lemma InitStepOf(r: Run, b: nat, p: nat, k: nat)
    requires Timed(r, b, p, k) && End(r).m.pc.Init? && !End(r).m.irq.pending
    requires End(r).h.now == End(r).h.hunger.sinceCount == 0
    ensures Timed(After(r, Main), b, p, k)
  {
    InitStepEnds(r);
  }

  /** In the gap that follows the boot feed, with `n` ticks and `c` counts so far. */
  ghost predicate InGap(w: World, n: nat, c: nat) {
    && w.m.pc.LoopFeed? && Handles(w.m) && w.m.wd.on
    && w.h.now == n && w.h.hunger.fed == 0
    && w.h.hunger.counts == c && w.m.wd.count == 2000 - c
  }

  ghost predicate Booting(w: World, i: nat) {
    && w.m.pc.Init? && Rank(w.m.pc.step) == i && !w.m.irq.pending
    && (i >= 9 ==> Handles(w.m)) && (i >= 7 ==> w.m.irq.ticking)
    && (i >= 5 ==> w.m.wd.reload == 2000) && (i >= 10 ==> w.m.wd.on) && (i == 4 ==> w.m.wd.access)
    && w.h.now == w.h.hunger.sinceCount == w.h.hunger.fed == 0
  }

  lemma BootWithoutTicks(b: nat, p: nat, k: nat) returns (r: Run)
    ensures Timed(r, b, p, k) && InGap(End(r), 0, 0) && End(r).h.hunger.sinceCount == 0
  {
    r := PowerOn;
    for i := 0 to 10
      invariant Timed(r, b, p, k) && Booting(End(r), i)
    {
      InitStepOf(r, b, p, k);
      InitStepEnds(r);
      r := After(r, Main);
    }
    InitStepOf(r, b, p, k);
    InitStepEnds(r);
    r := After(r, Main);
  }

  lemma GapTick(w: World, n: nat, c: nat)
    requires InGap(w, n, c)
    ensures InGap(Step(w, SysTick), n + 1, c)
    ensures var u, u' := w.h.hunger, Step(w, SysTick).h.hunger;
            u'.sinceCount == u.sinceCount + 1 && u'.sinceTick == 0
  {
  }

  lemma GapCount(w: World, n: nat, c: nat)
    requires InGap(w, n, c) && c < 1999
    ensures InGap(Step(w, WdCount), n, c + 1)
    ensures var u, u' := w.h.hunger, Step(w, WdCount).h.hunger;
            u'.sinceCount == 0 && u'.sinceTick == u.sinceTick + 1
  {
  }

  /** `p` ticks within one count. */
  lemma TicksInCount(r0: Run, n: nat, c: nat, b: nat, p: nat) returns (r: Run)
    requires RatedRun(r0, b, p) && InGap(End(r0), n, c) && End(r0).h.hunger.sinceCount == 0
    ensures RatedRun(r, b, p) && InGap(End(r), n + p, c) && End(r).h.hunger.sinceCount == p
  {
    r := r0;
    for q := 0 to p
      invariant RatedRun(r, b, p) && InGap(End(r), n + q, c) && End(r).h.hunger.sinceCount == q
    {
      GapTick(End(r), n + q, c);
      r := After(r, SysTick);
    }
  }

  /** In the gap after `c` counts, the last just made, with `p` ticks in each. */
  ghost predicate AtCount(r: Run, n: nat, c: nat, b: nat, p: nat) {
    RatedRun(r, b, p) && InGap(End(r), n, c) && End(r).h.hunger.sinceCount == 0
  }

  lemma OneCount(r0: Run, n: nat, c: nat, b: nat, p: nat) returns (r: Run)
    requires AtCount(r0, n, c, b, p) && c < 1999
    ensures AtCount(r, n + p, c + 1, b, p)
  {
    r := TicksInCount(r0, n, c, b, p);
    GapCount(End(r), n + p, c);
    r := After(r, WdCount);
  }

  lemma {:induction false} CountsInGap(c: nat, b: nat, p: nat) returns (r: Run, n: nat)
    requires c <= 1999
    ensures n == p * c && AtCount(r, n, c, b, p)
  {
    if c == 0 {
      n := 0;
      r := BootWithoutTicks(b, p, 0);
    } else {
      r, n := CountsInGap(c - 1, b, p);
      r := OneCount(r, n, c - 1, b, p);
      OneMore(p, c - 1);
      n := n + p;
    }
  }

  /** At p ticks per count, a gap of 2000p ticks does occur. */
  lemma RatedGapFills(b: nat, p: nat) returns (r: Run)
    ensures RatedRun(r, b, p)
    ensures End(r).h.now - End(r).h.hunger.fed == 2000 * p
  {
    var n;
    r, n := CountsInGap(1999, b, p);
    r := TicksInCount(r, n, 1999, b, p);
  }

  /** `k` counts within one tick. */
  lemma CountsInTick(r0: Run, n: nat, c: nat, b: nat, k: nat) returns (r: Run)
    requires SpacedRun(r0, b, k) && InGap(End(r0), n, c) && c + k < 2000
    requires End(r0).h.hunger.sinceTick == 0
    ensures SpacedRun(r, b, k) && InGap(End(r), n, c + k) && End(r).h.hunger.sinceTick == k
  {
    r := r0;
    for q := 0 to k
      invariant SpacedRun(r, b, k) && InGap(End(r), n, c + q) && End(r).h.hunger.sinceTick == q
    {
      GapCount(End(r), n, c + q);
      r := After(r, WdCount);
    }
  }

  /** In the gap after `i` ticks, the last just handled, as close together as allowed. */
  ghost predicate AtTick(r: Run, i: nat, b: nat, k: nat)
    requires i > 0
  {
    SpacedRun(r, b, k) && InGap(End(r), i, Span(k, i - 1)) && End(r).h.hunger.sinceTick == 0
  }

  lemma OneSpacing(r0: Run, i: nat, b: nat, k: nat) returns (r: Run)
    requires i > 0 && Span(k, i) < 2000 && AtTick(r0, i, b, k)
    ensures AtTick(r, i + 1, b, k)
  {
    r := CountsInTick(r0, i, Span(k, i - 1), b, k);
    GapTick(End(r), i, Span(k, i));
    r := After(r, SysTick);
  }

  lemma FirstTickInGap(b: nat, k: nat) returns (r: Run)
    ensures AtTick(r, 1, b, k)
  {
    r := BootWithoutTicks(b, 0, k);
    GapTick(End(r), 0, 0);
    r := After(r, SysTick);
  }

  lemma {:induction false} TicksInGap(i: nat, b: nat, k: nat) returns (r: Run)
    requires i > 0 && Span(k, i - 1) < 2000
    ensures AtTick(r, i, b, k)
  {
    if i == 1 {
      r := FirstTickInGap(b, k);
    } else {
      SpanIsMonotone(k, i - 2, i - 1);
      r := TicksInGap(i - 1, b, k);
      r := OneSpacing(r, i - 1, b, k);
    }
  }

  /** At k counts per tick, a gap of j ticks does occur if j - 1 spacings fit below 2000. */
  lemma SpacedGapFills(b: nat, k: nat, j: nat) returns (r: Run)
    requires j > 0 && Span(k, j - 1) < 2000
    ensures SpacedRun(r, b, k)
    ensures End(r).h.now - End(r).h.hunger.fed == j
  {
    r := TicksInGap(j, b, k);
  }

  /** At the nominal rates the gap of 200 ticks is attained. */
  lemma NominalGapFills(b: nat) returns (r: Run)
    ensures SpacedRun(r, b, 10)
    ensures End(r).h.now - End(r).h.hunger.fed == 200
  {
    SpanIsProduct(10, 199);
    r := SpacedGapFills(b, 10, 200);
  }

  // ---- polling ----

  lemma TicksInPolling(r0: Run, n: nat, b: nat, g: nat, d: nat) returns (r: Run)
    requires PollingRun(r0, b, g, d) && !End(r0).m.pc.Init? && Handles(End(r0).m)
    requires End(r0).h.now + n <= if InPoll(End(r0).m.pc) then End(r0).h.cur.start + d
                                  else LastStart(End(r0).h.log) + g
    ensures PollingRun(r, b, g, d)
    ensures var w, w0 := End(r), End(r0);
            && w.m.pc == w0.m.pc && Handles(w.m) && w.h.now == w0.h.now + n
            && w.h.log == w0.h.log && w.h.cur == w0.h.cur
  {
    r := r0;
    for i := 0 to n
      invariant PollingRun(r, b, g, d)
      invariant var w, w0 := End(r), End(r0);
                && w.m.pc == w0.m.pc && Handles(w.m) && w.h.now == w0.h.now + i
                && w.h.log == w0.h.log && w.h.cur == w0.h.cur
    {
      r := After(r, SysTick);
    }
  }

  lemma PollingBoot(b: nat, g: nat, d: nat) returns (r: Run)
    ensures PollingRun(r, b, g, d)
    ensures var w := End(r);
            w.m.pc.LoopFeed? && Handles(w.m) && w.h.now == 0 && w.h.log == Booted(0)
  {
    r := PowerOn;
    for i := 0 to 10
      invariant PollingRun(r, b, g, d) && Booting(End(r), i)
    {
      InitStepEnds(r);
      r := After(r, Main);
    }
    InitStepEnds(r);
    r := After(r, Main);
  }

  /** Polling as slow as allowed: g ticks from the boot feed to the first poll and d ticks inside
      it, before its first read. */
  lemma PollingIsAttained(b: nat, g: nat, d: nat) returns (r: Run)
    ensures PollingRun(r, b, g, d)
    ensures InPoll(End(r).m.pc) && End(r).h.now == LastStart(End(r).h.log) + g + d
  {
    r := PollingBoot(b, g, d);
    r := TicksInPolling(r, g, b, g, d);
    r := After(r, Main);
    r := After(r, Main);
    r := TicksInPolling(r, d, b, g, d);
  }
}
