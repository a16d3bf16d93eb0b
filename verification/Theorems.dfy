/** What holds in every state of every run of the firmware. */
module Theorems {
  import opened Word32
  import opened Firmware
  import opened Blinker
  import opened BlinkCycles
  import opened Chronicle
  import opened Coupling
  import opened Evidence
  import opened Pacing

  // ---- with no assumption at all ----

  /** No early switching: an LED_OFF is only ever issued at a true age of 100 or more, an
      LED_ON at 50 or more, and n completed cycles take at least 100n ticks, however the
      interrupts fall and however old the anchor gets. */
  lemma NoEarlySwitching(r: Run)
    ensures var w := End(r);
            && (w.m.pc.LedOff? ==> w.h.now - w.h.anchor >= 100)
            && (w.m.pc.LedOn? ==> w.h.now - w.h.anchor >= 50)
            && 100 * Cycles(w.h.log) <= w.h.anchor <= w.h.now
  {
    AlwaysCoupled(r);
    var h := End(r).h;
    CyclesAreLong(h.log);
    if End(r).m.pc.LedOff? {
      NeverEarly(h.anchor, h.cur.offLook);
    } else if End(r).m.pc.LedOn? {
      NeverEarly(h.anchor, h.cur.onLook);
    }
  }

  /** system_init: while interrupts are masked the counter stays at zero and ticks coalesce
      into one pending interrupt, so exactly zero or one tick is handled when they are
      unmasked: one if the timer has expired at all since it was started. */
  lemma BootIsQuiet(r: Run)
    requires End(r).m.irq.masked
    ensures End(r).m.jiffies == 0 && Due(Life(r)) <= 1
    ensures End(r).m.irq.pending <==> Due(Life(r)) == 1
    ensures var w := Step(End(r), Main); !w.m.irq.masked ==> w.m.jiffies == Due(Life(r))
  {
    AlwaysCoupled(r);
    ResetStartsOver(r);
    TimeIsTold(Life(r));
    MaskedStep(End(r).m, End(r).h, Due(Life(r)));
  }

  lemma MaskedStep(m: Machine, h: History, due: nat)
    requires m.irq.masked && Devices(m, h) && Clocks(m, h) && TimeTold(World(m, h, 0), due)
    ensures m.jiffies == 0 && due <= 1 && (m.irq.pending <==> due == 1)
    ensures !Exec(m).irq.masked ==> Exec(m).jiffies == due
  {
  }

  lemma PinBooks(r: Run)
    ensures End(r).m.gpio == Commands(End(r).h.log) + UnfinishedWrites(End(r).m.pc)
  {
    AlwaysCoupled(r);
  }

  /** The pin has been set once for each completed cycle, and once more by a poll that has
      switched the LED off and not yet stored its anchor. */
  lemma PinCounts(r: Run)
    ensures multiset(End(r).m.gpio)[SetBits] == Cycles(End(r).h.log) + |UnfinishedWrites(End(r).m.pc)|
    ensures |UnfinishedWrites(End(r).m.pc)| == if End(r).m.pc.AnchorRead? || End(r).m.pc.AnchorWrite? then 1 else 0
  {
    var w := End(r);
    PinBooks(r);
    CommandsCount(w.h.log);
    assert multiset(w.m.gpio) == multiset(Commands(w.h.log)) + multiset(UnfinishedWrites(w.m.pc));
  }

  /** Between polls the last command on the pin tells whether the LED has been lit in the cycle
      in progress. */
  lemma LastCommandOnPin(r: Run)
    requires End(r).m.pc.LoopFeed?
    ensures var pin, log := End(r).m.gpio, End(r).h.log;
            && (pin == [] <==> FirstOn(log).None? && Cycles(log) == 0)
            && (pin != [] ==> pin[|pin| - 1] == if FirstOn(log).Some? then ResetBits else SetBits)
  {
    PinBooks(r);
    assert End(r).m.gpio == Commands(End(r).h.log);
    LastCommandTells(End(r).h.log);
  }

  /** Every look of the log was exact at its only read. */
  ghost predicate AllLooksExact(log: Log) {
    log.Then? ==>
      && AllLooksExact(log.past)
      && ExactLook(Anchor(log.past), log.poll.first)
      && (!log.poll.Off? ==> ExactLook(Anchor(log.past), log.poll.second))
  }

  ghost predicate ExactLook(a: nat, l: Look) {
    l.read == l.first && l.age == l.read - a
  }

  lemma SampledBeforeWrap(a: nat, l: Look)
    requires a <= l.first <= l.read < MOD && Sampled(a, l)
    ensures ExactLook(a, l)
  {
  }

  lemma {:induction false} LogBeforeWrap(log: Log)
    requires Observed(log) && LastEnd(log) < MOD
    ensures AllLooksExact(log)
  {
    AnchorIsPast(log);
    if log.Then? {
      AnchorIsPast(log.past);
      LogBeforeWrap(log.past);
      SampledBeforeWrap(Anchor(log.past), log.poll.first);
      if !log.poll.Off? {
        SampledBeforeWrap(Anchor(log.past), log.poll.second);
      }
    }
  }

  lemma BelowModulus(t: nat)
    ensures t < MOD ==> t % MOD == t
  {
  }

  lemma YoungAnchorIsBelow(w: World)
    requires Coupled(w) && w.h.now < MOD
    ensures !w.m.pc.Reread? && !w.m.pc.RereadReturn?
  {
    BelowModulus(w.h.anchor);
    BelowModulus(w.h.cur.first);
  }

  /** Before the counter first wraps, the wrap branch is never entered and every look of
      the run is exact. */
  lemma NoWrapBranchBeforeFirstWrap(r: Run)
    requires End(r).h.now < MOD
    ensures !End(r).m.pc.Reread? && !End(r).m.pc.RereadReturn?
    ensures AllLooksExact(End(r).h.log)
  {
    AlwaysCoupled(r);
    YoungAnchorIsBelow(End(r));
    LogBeforeWrap(End(r).h.log);
  }

  // ---- with bounded pace ----

  /** The self-sustaining invariant: the two 32-bit variables stand for true times, and the
      anchor is never older than 99 + h ticks, plus one after a wrap (a boot of 100 ticks or
      more can stretch the first cycle to b + h). In particular its age always fits the
      counter: nothing the wrap arithmetic needs is assumed. */
  lemma ClockSound(r: Run, b: nat, h: nat)
    requires PacedRun(r, b, h)
    requires b + h < MOD && 100 + h < MOD
    ensures var w := End(r);
            && w.m.jiffies == w.h.now % MOD
            && w.m.ledRunTime == w.h.anchor % MOD
            && w.h.anchor <= w.h.now < w.h.anchor + MOD
            && (|| w.h.now <= w.h.anchor + 99 + h + Lost(w.h.anchor, w.h.now)
                || (b >= 100 && w.h.now <= b + h))
  {
    AlwaysCoupled(r);
    PacedRunsHavePacedLogs(r, b, h);
    var hist := End(r).h;
    BecomesIdeal(hist.log, b, h);
    LostIsMonotone(hist.anchor, LastEnd(hist.log), hist.now);
  }

  /** Surviving the watchdog implies clock soundness, over any number of wraps and of
      watchdog resets: if at most j ticks fit between two feeds that avoid a reset, the
      anchor's age never exceeds 100 + 2j. */
  lemma WatchdogMakesClockSound(r: Run, b: nat, j: nat)
    requires GapRun(r, b, j)
    requires b + 2 * j < MOD && 100 + 2 * j < MOD
    ensures var w := End(r);
            && w.m.jiffies == w.h.now % MOD
            && w.m.ledRunTime == w.h.anchor % MOD
            && w.h.anchor <= w.h.now < w.h.anchor + MOD
            && (w.h.now - w.h.anchor <= 100 + 2 * j || (b >= 100 && w.h.now <= b + 2 * j))
  {
    FeedGapsPace(r, b, j);
    ClockSound(r, b, 2 * j);
  }

  /** The gap from the rates of the two clocks alone: with at most p ticks per watchdog count
      at most 2000p ticks fit between two feeds. */
  lemma RatedWatchdogMakesClockSound(r: Run, b: nat, p: nat)
    requires RatedRun(r, b, p)
    requires b + 4000 * p < MOD && 100 + 4000 * p < MOD
    ensures var w := End(r);
            && w.m.jiffies == w.h.now % MOD
            && w.m.ledRunTime == w.h.anchor % MOD
            && w.h.anchor <= w.h.now < w.h.anchor + MOD
            && (w.h.now - w.h.anchor <= 100 + 4000 * p || (b >= 100 && w.h.now <= b + 4000 * p))
  {
    RatesBoundGaps(r, b, p);
    WatchdogMakesClockSound(r, b, WD_RELOAD * p);
  }

  /** And with at least k counts between ticks, at most j fit once k * j reaches 2000. */
  lemma SpacedTicksMakeClockSound(r: Run, b: nat, k: nat, j: nat)
    requires SpacedRun(r, b, k) && 2000 <= k * j
    requires b + 2 * j < MOD && 100 + 2 * j < MOD
    ensures var w := End(r);
            && w.m.jiffies == w.h.now % MOD
            && w.m.ledRunTime == w.h.anchor % MOD
            && w.h.anchor <= w.h.now < w.h.anchor + MOD
            && (w.h.now - w.h.anchor <= 100 + 2 * j || (b >= 100 && w.h.now <= b + 2 * j))
  {
    SpanIsProduct(k, j);
    SpacedTicksBoundGaps(r, b, k, j);
    WatchdogMakesClockSound(r, b, j);
  }

  /** At the source's nominal rates, a 10 ms tick and a 1 ms count, at most 200 ticks fit
      between two feeds and the anchor is never older than 500 ticks. */
  lemma NominalClockSound(r: Run, b: nat)
    requires SpacedRun(r, b, 10) && b + 400 < MOD
    ensures GapRun(r, b, 200)
    ensures var w := End(r);
            && w.h.anchor <= w.h.now
            && (w.h.now - w.h.anchor <= 500 || (b >= 100 && w.h.now <= b + 400))
  {
    SpanIsProduct(10, 200);
    SpacedTicksBoundGaps(r, b, 10, 200);
    WatchdogMakesClockSound(r, b, 200);
  }

  /** The same from a bound g between poll starts and a bound d inside a poll. */
  lemma BoundedPollingMakesClockSound(r: Run, b: nat, g: nat, d: nat)
    requires PollingRun(r, b, g, d)
    requires b + g + d < MOD && 100 + g + d < MOD
    ensures var w := End(r);
            && w.m.jiffies == w.h.now % MOD
            && w.m.ledRunTime == w.h.anchor % MOD
            && w.h.anchor <= w.h.now < w.h.anchor + MOD
            && (w.h.now - w.h.anchor <= 100 + g + d || (b >= 100 && w.h.now <= b + g + d))
  {
    BoundedPollingIsPaced(r, b, g, d);
    ClockSound(r, b, g + d);
  }

  /** Refinement: every paced run of the 32-bit firmware is a run of the blinker on an
      unbounded clock, with the same writes to the LED pin. */
  lemma RefinesUnboundedBlinker(r: Run, b: nat, h: nat)
    requires PacedRun(r, b, h)
    requires b + h < MOD && 100 + h < MOD
    ensures Ideal(End(r).h.log)
    ensures End(r).m.gpio == Commands(End(r).h.log) + UnfinishedWrites(End(r).m.pc)
    ensures End(r).h.log == LogTold(Life(r)) && End(r).m.gpio == WritesTold(Life(r))
  {
    AlwaysCoupled(r);
    RecordIsTold(r);
    PacedRunsHavePacedLogs(r, b, h);
    BecomesIdeal(End(r).h.log, b, h);
  }

  /** The result jiffies_before is about to return, for any interrupts inside the call. */
  lemma EveryDecisionIsSound(r: Run, b: nat, h: nat)
    requires PacedRun(r, b, h)
    requires b + h < MOD && 100 + h < MOD
    requires End(r).m.pc.Decide?
    ensures var w := End(r);
            var l := LookOf(w.h, w.m.pc.site);
            && w.m.pc.age == l.age && Honest(w.h.anchor, l)
            && l.call - w.h.anchor - 1 <= w.m.pc.age <= l.ret - w.h.anchor
  {
    AlwaysCoupled(r);
    ClockSound(r, b, h);
    var w := End(r);
    SamplingBound(w.h.anchor, LookOf(w.h, w.m.pc.site));
  }

  /** Each completed cycle of the run: at least 100 ticks, at most 99 + h, plus one only if the
      counter wrapped in it; b + h if the first poll ends the first cycle of a long boot. */
  lemma CycleLengthsOfRun(r: Run, b: nat, h: nat)
    requires PacedRun(r, b, h)
    requires b + h < MOD && 100 + h < MOD
    ensures CycleLengths(End(r).h.log, b, h)
  {
    AlwaysCoupled(r);
    PacedRunsHavePacedLogs(r, b, h);
    CycleLengthsHold(End(r).h.log, b, h);
  }

  /** Drift, and its converse: after `now` ticks the number n of completed cycles is pinned
      by 100n <= now <= (n + 1)(99 + h) plus one tick for each wrap and the excess of a boot
      of 100 ticks or more. */
  lemma BlinkCount(r: Run, b: nat, h: nat)
    requires PacedRun(r, b, h)
    requires b + h < MOD && 100 + h < MOD
    ensures var w := End(r);
            var n := Cycles(w.h.log);
            && 100 * n <= w.h.anchor <= n * (99 + h) + w.h.anchor / MOD + (if b >= 100 then b - 99 else 0)
            && 100 * n <= w.h.now <= (n + 1) * (99 + h) + w.h.now / MOD + (if b >= 100 then b - 99 else 0)
  {
    NoEarlySwitching(r);
    AlwaysCoupled(r);
    ClockSound(r, b, h);
    CycleLengthsOfRun(r, b, h);
    var hist := End(r).h;
    Drift(hist.log, b, h);
    NextCycleBound(Cycles(hist.log), b, h, hist.anchor, hist.now);
  }

  /** At most one blink cycle per wrap ever sees an under-reported age. */
  lemma LostTicksAreRare(r: Run, b: nat, h: nat)
    requires PacedRun(r, b, h)
    requires b + h < MOD && 100 + h < MOD
    ensures LossyCycles(End(r).h.log) + (if OpenCycleLossy(End(r).h.log) then 1 else 0) <= End(r).h.now / MOD
  {
    AlwaysCoupled(r);
    RefinesUnboundedBlinker(r, b, h);
    LossyCyclesAreRare(End(r).h.log);
  }

  /** And it counts exactly the wraps that fell before the deciding look of a cycle. */
  lemma LostTicksExactly(r: Run, b: nat, h: nat)
    requires PacedRun(r, b, h)
    requires b + h < MOD && 100 + h < MOD
    ensures LossyCycles(End(r).h.log) == LostAtOff(LogTold(Life(r)))
  {
    RefinesUnboundedBlinker(r, b, h);
    LossyCyclesExactly(End(r).h.log);
  }

  /** Successive looks at one anchor, the two of a single poll included, never disagree about
      which is older: reported ages grow with the clock and stall only at a wrap. */
  lemma AgesGrowInRun(r: Run, b: nat, h: nat)
    requires PacedRun(r, b, h)
    requires b + h < MOD && 100 + h < MOD
    ensures AgesGrow(End(r).h.log)
  {
    AlwaysCoupled(r);
    PacedRunsHavePacedLogs(r, b, h);
    AgesGrowHolds(End(r).h.log, b, h);
  }

  // ---- the light ----

  /** A poll that has switched the LED off but not yet stored the new anchor, completed. */
  function Completed(w: World): Log
    requires w.m.pc.AnchorRead? || w.m.pc.AnchorWrite?
  {
    var c := w.h.cur;
    Then(w.h.log, Off(c.start, c.offLook, c.offAt, w.h.now, w.h.now))
  }

  lemma CompletedIsObserved(w: World)
    requires Coupled(w) && (w.m.pc.AnchorRead? || w.m.pc.AnchorWrite?)
    ensures Observed(Completed(w))
    ensures w.m.gpio == Commands(Completed(w))
  {
  }

  lemma CompletedIsPaced(w: World, b: nat, h: nat)
    requires Paced(w, b, h) && PacedLog(w.h.log, b, h) && (w.m.pc.AnchorRead? || w.m.pc.AnchorWrite?)
    ensures PacedLog(Completed(w), b, h)
  {
  }

  /** On the pin of a fast enough run: the LED is lit in every cycle, so LED_OFF never
      follows LED_OFF, not even in a poll that has not yet returned. */
  lemma PinAlternates(r: Run, b: nat, h: nat)
    requires PacedRun(r, b, h)
    requires h <= 50 && b + h < 100
    ensures Phases(End(r).m.gpio) && End(r).m.gpio == WritesTold(Life(r))
  {
    AlwaysCoupled(r);
    RecordIsTold(r);
    PacedRunsHavePacedLogs(r, b, h);
    var w := End(r);
    if w.m.pc.AnchorRead? || w.m.pc.AnchorWrite? {
      CompletedIsObserved(w);
      CompletedIsPaced(w, b, h);
      CyclesAreLit(Completed(w), b, h);
      LitCyclesAlternate(Completed(w));
    } else {
      CyclesAreLit(w.h.log, b, h);
      LitCyclesAlternate(w.h.log);
      assert w.m.gpio == Commands(w.h.log);
    }
  }

  /** In each cycle the LED is lit from [a + 50, a + 50 + h] on, for 51 - h to 50 + h ticks (a
      boot of 50 ticks or more can delay the first light to b + h); in particular an anchor
      more than 50 + h ticks old has seen it lit. */
  lemma LitTimesOfRun(r: Run, b: nat, h: nat)
    requires PacedRun(r, b, h)
    requires h <= 50 && b + h < 100
    ensures LitTimes(End(r).h.log, b, h) && End(r).h.log == LogTold(Life(r))
    ensures var w := End(r);
            w.h.now - w.h.anchor > 50 + h && (b >= 50 ==> w.h.now > b + h) ==> FirstOn(w.h.log).Some?
  {
    AlwaysCoupled(r);
    RecordIsTold(r);
    PacedRunsHavePacedLogs(r, b, h);
    LitTimesHold(End(r).h.log, b, h);
  }
}
