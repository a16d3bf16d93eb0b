/** Runs that show the bounds and conditions proved elsewhere to be exact. */
module Witnesses {
  import opened Word32
  import opened Firmware
  import opened Blinker
  import opened BlinkCycles
  import opened Chronicle
  import opened Coupling
  import opened Pacing
  import opened QuietRuns

  // ---- cycle lengths and lit times ----

  /** The last poll of the run ends the cycle anchored at `a`, first lit at `on`, at `off`. */
  ghost predicate CycleEnds(r: Run, a: nat, on: nat, off: nat, b: nat, h: nat) {
    var log := End(r).h.log;
    && PacedRun(r, b, h)
    && log.Then? && log.poll.Off? && log.poll.first.read == log.poll.offAt == log.poll.anchor == off
    && Anchor(log.past) == a && FirstOn(log.past) == Some(on)
  }

  /** The longest cycle and the longest light without a wrap: 99 + h and 49 + h ticks. */
  lemma LongestCycle(b: nat, h: nat) returns (r: Run)
    requires 0 < h && 100 + h < MOD
    ensures CycleEnds(r, 0, 50, 99 + h, b, h)
  {
    SameLap(0, 99);
    SameLap(0, 99 + h);
    r := FirstCycleStarts(b, PollPace(h));
    r := LightAt50(r, 0, b, PollPace(h));
    r := PollUpTo(r, 50, 99, 0, Some(50), b, PollPace(h));
    r := PollInCycle(r, 99, 99 + h, 0, Some(50), b, PollPace(h));
    KeptPollPace(r, b, h);
  }

  /** The wrap's extra tick does occur, in the cycle and in the light: the poll 100 ticks after
      the anchor reports 99, and the next comes h ticks later. */
  lemma LongestWrappedCycle(b: nat, h: nat) returns (r: Run)
    requires 0 < h && 100 + h < MOD
    ensures CycleEnds(r, LAST_ANCHOR, LAST_ANCHOR + 50, LAST_ANCHOR + 100 + h, b, h)
  {
    var a := LAST_ANCHOR;
    NextLap(a, a + 100);
    NextLap(a, a + 100 + h);
    r := ReachLastAnchor(b, PollPace(h));
    r := LightAt50(r, a, b, PollPace(h));
    r := PollUpTo(r, a + 50, a + 100, a, Some(a + 50), b, PollPace(h));
    r := PollInCycle(r, a + 100, a + 100 + h, a, Some(a + 50), b, PollPace(h));
    KeptPollPace(r, b, h);
  }

  /** The shortest light, 51 - h ticks: a poll at age 49, the next h ticks later, and one at
      age 100. */
  lemma ShortestLight(b: nat, h: nat) returns (r: Run)
    requires 0 < h <= 50
    ensures CycleEnds(r, 0, 49 + h, 100, b, h)
  {
    SameLap(0, 49);
    SameLap(0, 49 + h);
    SameLap(0, 99);
    SameLap(0, 100);
    r := FirstCycleStarts(b, PollPace(h));
    r := PollUpTo(r, 0, 49, 0, None, b, PollPace(h));
    r := PollInCycle(r, 49, 49 + h, 0, None, b, PollPace(h));
    r := PollUpTo(r, 49 + h, 99, 0, Some(49 + h), b, PollPace(h));
    r := PollInCycle(r, 99, 100, 0, Some(49 + h), b, PollPace(h));
    KeptPollPace(r, b, h);
  }

  /** The latest first light, 50 + h ticks after the anchor: the wrap makes the poll at age 50
      report 49, and the next comes h ticks later. */
  lemma LatestLight(b: nat, h: nat) returns (r: Run, a: nat)
    requires 0 < h <= 50
    ensures PacedRun(r, b, h)
    ensures Anchor(End(r).h.log) == a && FirstOn(End(r).h.log) == Some(a + 50 + h)
  {
    var pace := PollPace(h);
    r, a := ReachLateAnchor(b, pace);
    NextLap(a, a + 50);
    NextLap(a, a + 50 + h);
    r := PollUpTo(r, a, a + 50, a, None, b, pace);
    r := PollInCycle(r, a + 50, a + 50 + h, a, None, b, pace);
    KeptPollPace(r, b, h);
  }

  // ---- lighting ----

  lemma BootInCycle(t: nat, b: nat, pace: Pace) returns (r: Run)
    requires t <= b
    ensures InCycle(r, t, 0, None, b, pace)
  {
    r := BootTakes(t, b, pace);
  }

  /** With b + h >= 100 the very first poll can come at tick 100. */
  lemma DarkFirstPoll(b: nat, pace: Pace) returns (r: Run)
    requires b + NextPoll(pace) >= OFF_AGE
    ensures KeepsRun(r, b, pace) && !EveryCycleLit(End(r).h.log)
  {
    var t: nat := if NextPoll(pace) <= OFF_AGE then OFF_AGE - NextPoll(pace) else 0;
    r := BootInCycle(t, b, pace);
    var log := End(r).h.log;
    r := PollFar(r, t, OFF_AGE, 0, None, b, pace);
    assert End(r).h.log == Then(log, QuietPoll(OFF_AGE, 0));
  }

  /** With h > 50 a poll at tick 49 can be followed by one at tick 100. */
  lemma DarkSecondPoll(b: nat, pace: Pace) returns (r: Run)
    requires NextPoll(pace) > ON_AGE
    ensures KeepsRun(r, b, pace) && !EveryCycleLit(End(r).h.log)
  {
    SameLap(0, ON_AGE - 1);
    r := BootInCycle(0, b, pace);
    r := PollUpTo(r, 0, ON_AGE - 1, 0, None, b, pace);
    var log := End(r).h.log;
    r := PollFar(r, ON_AGE - 1, OFF_AGE, 0, None, b, pace);
    assert End(r).h.log == Then(log, QuietPoll(OFF_AGE, 0));
  }

  lemma DarkRun(b: nat, pace: Pace) returns (r: Run)
    requires NextPoll(pace) > ON_AGE || b + NextPoll(pace) >= OFF_AGE
    ensures KeepsRun(r, b, pace) && !EveryCycleLit(End(r).h.log)
  {
    if NextPoll(pace) > ON_AGE {
      r := DarkSecondPoll(b, pace);
    } else {
      r := DarkFirstPoll(b, pace);
    }
  }

  lemma PacedRunsAreLit(r: Run, b: nat, h: nat)
    requires PacedRun(r, b, h) && h <= ON_AGE && b + h < OFF_AGE
    ensures EveryCycleLit(End(r).h.log)
  {
    AlwaysCoupled(r);
    PacedRunsHavePacedLogs(r, b, h);
    CyclesAreLit(End(r).h.log, b, h);
  }

  /** Does every cycle light the LED? On all runs of a given pace, exactly when two polls
      are at most 50 ticks apart and the first comes before tick 100. */
  lemma EveryCycleLitExactly(b: nat, h: nat)
    ensures (forall r :: PacedRun(r, b, h) ==> EveryCycleLit(End(r).h.log))
       <==> h <= 50 && b + h < 100
  {
    if h <= 50 && b + h < 100 {
      forall r | PacedRun(r, b, h)
        ensures EveryCycleLit(End(r).h.log)
      {
        PacedRunsAreLit(r, b, h);
      }
    } else {
      var r := DarkRun(b, PollPace(h));
      KeptPollPace(r, b, h);
    }
  }

  /** The same of a bound on the gap between feeds. */
  lemma FeedGapsLightExactly(b: nat, j: nat)
    ensures (forall r :: GapRun(r, b, j) ==> EveryCycleLit(End(r).h.log))
       <==> 2 * j <= 50 && b + 2 * j < 100
  {
    if 2 * j <= 50 && b + 2 * j < 100 {
      forall r | GapRun(r, b, j)
        ensures EveryCycleLit(End(r).h.log)
      {
        FeedGapsPace(r, b, j);
        PacedRunsAreLit(r, b, 2 * j);
      }
    } else {
      var r := DarkRun(b, FeedGap(j));
      KeptFeedGap(r, b, j);
    }
  }

  // ---- the window ----

  lemma AliasedBoot()
    ensures !HonestPoll(0, QuietPoll(MOD, 0))
  {
    assert QuietAge(MOD, 0) == 0;
  }

  lemma DishonestPoll(log: Log)
    requires log.Then? && !HonestPoll(Anchor(log.past), log.poll)
    ensures !Ideal(log)
  {
  }

  /** With b + h >= 2^32 the first poll can find the counter back at the anchor. */
  lemma AliasedFirstPoll(b: nat, pace: Pace) returns (r: Run)
    requires b + NextPoll(pace) >= MOD
    ensures KeepsRun(r, b, pace) && !Ideal(End(r).h.log)
  {
    AliasedBoot();
    var t: nat := if NextPoll(pace) <= MOD then MOD - NextPoll(pace) else 0;
    r := BootInCycle(t, b, pace);
    var log := End(r).h.log;
    r := PollFar(r, t, MOD, 0, None, b, pace);
    assert End(r).h.log == Then(log, QuietPoll(MOD, 0));
    DishonestPoll(End(r).h.log);
  }

  /** Anchor 100 ticks before the wrap, poll at the wrap (where the reported age is 99), and
      again one full period after the anchor (where it is 0). */
  lemma AliasedPolls()
    ensures var a := MOD - OFF_AGE;
            && QuietPoll(a, 0).Off?
            && QuietPoll(MOD, a).On?
            && QuietPoll(a + MOD, a).Idle? && QuietAge(a + MOD, a) == 0
            && !HonestPoll(a, QuietPoll(a + MOD, a))
  {
    var a := MOD - OFF_AGE;
    assert QuietAge(a, 0) == a;
    assert QuietAge(MOD, a) == OFF_AGE - 1;
    assert QuietAge(a + MOD, a) == 0;
  }

  /** The third poll finds the anchor a full period old and reports age 0. */
  lemma AliasedThirdPoll(b: nat, h: nat) returns (r: Run)
    requires OFF_AGE + h >= MOD
    ensures PacedRun(r, b, h) && !Ideal(End(r).h.log)
    ensures var log := End(r).h.log;
            && log.Then? && log.past.Then? && log.past.past.Then? && log.past.past.past.Booted?
            && log.poll.Idle?
            && log.poll.first.age == log.poll.second.age == 0
            && log.poll.first.read - Anchor(log.past) == log.poll.second.read - Anchor(log.past) == MOD
  {
    AliasedPolls();
    var a: nat := MOD - OFF_AGE;
    var pace := PollPace(h);
    r := BootTakes(0, b, pace);
    r := PollQuietly(r, a, a, b, pace);
    r := PollQuietly(r, MOD, MOD, b, pace);
    r := PollQuietly(r, a + MOD, a + MOD, b, pace);
    KeptPollPace(r, b, h);
  }

  /** With feeds to keep to, one more poll brings the feed up to the anchor. */
  lemma AliasedLastPoll(b: nat, pace: Pace) returns (r: Run)
    requires OFF_AGE + NextPoll(pace) >= MOD
    ensures KeepsRun(r, b, pace) && !Ideal(End(r).h.log)
  {
    AliasedPolls();
    var a: nat := MOD - OFF_AGE;
    r := BootInCycle(0, b, pace);
    r := PollFar(r, 0, a, 0, None, b, pace);
    r := PollAgain(r, a, b, pace);
    QuietAgeInWindow(MOD, a);
    NextLap(a, MOD);
    r := PollInCycle(r, a, MOD, a, None, b, pace);
    var log := End(r).h.log;
    r := PollFar(r, MOD, a + MOD, a, Some(MOD), b, pace);
    assert End(r).h.log == Then(log, QuietPoll(a + MOD, a));
    DishonestPoll(End(r).h.log);
  }

  /** A pass of the loop in the tick that set the anchor. */
  lemma PollAgain(r0: Run, a: nat, b: nat, pace: Pace) returns (r: Run)
    requires KeepsRun(r0, b, pace) && End(r0).m.pc.LoopFeed? && End(r0).h.now == a
    requires End(r0).h.hunger.fed + Stride(pace) >= a && a > 0
    requires End(r0).h.log.Then? && End(r0).h.log.poll == Off(a, End(r0).h.log.poll.first, a, a, a)
    ensures InCycle(r, a, a, None, b, pace)
  {
    QuietAgeInWindow(a, a);
    r := PollQuietly(r0, a, a, b, pace);
  }

  lemma AliasedRun(b: nat, pace: Pace) returns (r: Run)
    requires OFF_AGE + NextPoll(pace) >= MOD || b + NextPoll(pace) >= MOD
    ensures KeepsRun(r, b, pace) && !Ideal(End(r).h.log)
  {
    if b + NextPoll(pace) >= MOD {
      r := AliasedFirstPoll(b, pace);
    } else {
      r := AliasedLastPoll(b, pace);
    }
  }

  lemma PacedRunsAreIdeal(r: Run, b: nat, h: nat)
    requires PacedRun(r, b, h) && OFF_AGE + h < MOD && b + h < MOD
    ensures Ideal(End(r).h.log)
  {
    AlwaysCoupled(r);
    PacedRunsHavePacedLogs(r, b, h);
    BecomesIdeal(End(r).h.log, b, h);
  }

  /** Is the 32-bit firmware a blinker on an unbounded clock? On all runs of a given pace,
      exactly when an anchor, 100 ticks old at the start of a poll, still fits the counter
      at the end of the next one, and so does the first anchor. */
  lemma RefinementExactly(b: nat, h: nat)
    ensures (forall r :: PacedRun(r, b, h) ==> Ideal(End(r).h.log))
       <==> 100 + h < MOD && b + h < MOD
  {
    if 100 + h < MOD && b + h < MOD {
      forall r | PacedRun(r, b, h)
        ensures Ideal(End(r).h.log)
      {
        PacedRunsAreIdeal(r, b, h);
      }
    } else {
      var r := AliasedRun(b, PollPace(h));
      KeptPollPace(r, b, h);
    }
  }

  /** The same of a bound on the gap between feeds: how often must the watchdog be fed for
      the wrap arithmetic to be sound? */
  lemma FeedGapsRefineExactly(b: nat, j: nat)
    ensures (forall r :: GapRun(r, b, j) ==> Ideal(End(r).h.log))
       <==> 100 + 2 * j < MOD && b + 2 * j < MOD
  {
    if 100 + 2 * j < MOD && b + 2 * j < MOD {
      forall r | GapRun(r, b, j)
        ensures Ideal(End(r).h.log)
      {
        FeedGapsPace(r, b, j);
        PacedRunsAreIdeal(r, b, 2 * j);
      }
    } else {
      var r := AliasedRun(b, FeedGap(j));
      KeptFeedGap(r, b, j);
    }
  }

  // ---- the lost tick ----

  /** A run with exactly one lossy cycle, the one in which the counter first wraps. */
  lemma OneLossyCycle(b: nat, h: nat) returns (r: Run)
    requires 0 < h && 100 + h < MOD && b + h < MOD
    ensures PacedRun(r, b, h) && LossyCycles(End(r).h.log) == 1
  {
    r := LongestWrappedCycle(b, h);
    var log := End(r).h.log;
    assert LAST_ANCHOR % MOD == LAST_ANCHOR && LAST_ANCHOR / MOD == 0;
    NextLap(LAST_ANCHOR, LAST_ANCHOR + 100 + h);
    PacedRunsAreIdeal(r, b, h);
    LossyCyclesAreRare(log.past);
    LossyCyclesExactly(log.past);
    LossyCyclesExactly(log);
  }
}
