/** Whole-run properties of the blinker: pace, drift, and what the LED shows. */
module BlinkCycles {
  import opened Word32
  import opened Firmware
  import opened Blinker

  datatype Option<+T> = None | Some(value: T)

  // ---- the anchors ----

  lemma {:induction false} AnchorIsPast(log: Log)
    requires Ordered(log)
    ensures Anchor(log) <= LastEnd(log)
  {
    if log.Then? {
      AnchorIsPast(log.past);
    }
  }

  /** Whatever the schedule, and even if the anchor outlives the counter's period, a
      switch is never early: a sampled age never exceeds the true one. */
  lemma NeverEarly(a: nat, l: Look)
    requires a <= l.first <= l.read && Sampled(a, l)
    ensures l.age <= l.read - a
  {
  }

  lemma {:induction false} CyclesAreLong(log: Log)
    requires Observed(log)
    ensures OFF_AGE * Cycles(log) <= Anchor(log) <= LastEnd(log)
  {
    AnchorIsPast(log);
    if log.Then? {
      CyclesAreLong(log.past);
      if log.poll.Off? {
        NeverEarly(Anchor(log.past), log.poll.first);
      }
    }
  }

  /** Every re-anchoring of the run moves the anchor by at least 100 ticks, by one more if
      the look that decided it had lost a tick, and by at most 99 + h, plus one only when
      the counter wrapped during the cycle. A boot of 100 ticks or more can stretch the first
      cycle to b + h. */
  ghost predicate CycleLengths(log: Log, b: nat, h: nat) {
    log.Then? ==>
      && CycleLengths(log.past, b, h)
      && (log.poll.Off? ==>
            var a, a' := Anchor(log.past), log.poll.anchor;
            && OFF_AGE + Lost(a, log.poll.first.read) <= a' - a
            && (|| a' - a <= OFF_AGE - 1 + h + Lost(a, a')
                || (b >= OFF_AGE && log.past.Booted? && a' <= b + h)))
  }

  lemma {:induction false} CycleLengthsHold(log: Log, b: nat, h: nat)
    requires Observed(log) && PacedLog(log, b, h)
    requires b + h < MOD && OFF_AGE + h < MOD
    ensures CycleLengths(log, b, h)
  {
    if log.Then? {
      CycleLengthsHold(log.past, b, h);
      BecomesIdeal(log, b, h);
      BecomesIdeal(log.past, b, h);
      if log.poll.Off? {
        LostIsMonotone(Anchor(log.past), LastEnd(log.past), log.poll.anchor);
      }
    }
  }

  /** By how much a long boot can exceed the 99 ticks of any other wait. */
  function Excess(b: nat): nat {
    if b >= OFF_AGE then b - (OFF_AGE - 1) else 0
  }

  /** After n re-anchorings the anchor lies between 100n and n(99 + h), plus at most one
      tick for each wrap of the counter so far and the excess of a long boot. */
  lemma {:induction false} Drift(log: Log, b: nat, h: nat)
    requires CycleLengths(log, b, h)
    ensures OFF_AGE * Cycles(log) <= Anchor(log)
    ensures Anchor(log) <= Cycles(log) * (OFF_AGE - 1 + h) + Anchor(log) / MOD + Excess(b)
  {
    if log.Then? {
      Drift(log.past, b, h);
      if log.poll.Off? {
        LostIsMonotone(Anchor(log.past), Anchor(log), Anchor(log));
        OneCycleMore(Cycles(log.past), OFF_AGE - 1 + h);
      }
    }
  }

  lemma OneCycleMore(n: nat, k: nat)
    ensures (n + 1) * k == n * k + k
  {
  }

  /** From the n-th anchor to any time before the next. */
  lemma NextCycleBound(n: nat, b: nat, h: nat, a: nat, t: nat)
    requires a <= t
    requires t <= a + OFF_AGE - 1 + h + Lost(a, t) || (b >= OFF_AGE && t <= b + h)
    requires a <= n * (OFF_AGE - 1 + h) + a / MOD + Excess(b)
    ensures t <= (n + 1) * (OFF_AGE - 1 + h) + t / MOD + Excess(b)
  {
    OneCycleMore(n, OFF_AGE - 1 + h);
    LostIsMonotone(a, t, t);
  }

  // ---- the lost ticks ----

  ghost predicate UnderReports(a: nat, l: Look) {
    l.age < l.read - a
  }

  ghost predicate PollUnderReports(a: nat, p: Poll) {
    UnderReports(a, p.first) || (!p.Off? && UnderReports(a, p.second))
  }

  /** Some look of the cycle in progress has under-reported the age. */
  ghost predicate OpenCycleLossy(log: Log) {
    log.Then? && !log.poll.Off? &&
    (OpenCycleLossy(log.past) || PollUnderReports(Anchor(log.past), log.poll))
  }

  /** How many completed cycles contained an under-reporting look. */
  ghost function LossyCycles(log: Log): nat {
    match log
    case Booted(_) => 0
    case Then(past, p) =>
      LossyCycles(past) +
      if p.Off? && (OpenCycleLossy(past) || PollUnderReports(Anchor(past), p)) then 1 else 0
  }

  lemma UnderReportMeansWrap(a: nat, p: Poll, from: nat)
    requires a <= from && Lawful(from, p) && HonestPoll(a, p) && PollUnderReports(a, p)
    ensures a / MOD < p.end / MOD
    ensures p.Off? ==> a / MOD < p.anchor / MOD
  {
  }

  /** Re-anchoring clears the error: a cycle can only under-report if the counter wrapped
      in it, so no run has more lossy cycles than wraps. */
  lemma {:induction false} LossyCyclesAreRare(log: Log)
    requires Ideal(log)
    ensures LossyCycles(log) <= Anchor(log) / MOD
    ensures OpenCycleLossy(log) ==> Anchor(log) / MOD < LastEnd(log) / MOD
    ensures LossyCycles(log) + (if OpenCycleLossy(log) then 1 else 0) <= LastEnd(log) / MOD
  {
    AnchorIsPast(log);
    match log
    case Booted(_) =>
    case Then(past, p) =>
      LossyCyclesAreRare(past);
      AnchorIsPast(past);
      var a := Anchor(past);
      assert a / MOD <= LastEnd(past) / MOD <= p.end / MOD;
      assert p.Off? ==> LastEnd(past) / MOD <= p.anchor / MOD <= p.end / MOD;
      if PollUnderReports(a, p) {
        UnderReportMeansWrap(a, p, LastEnd(past));
      }
      assert Anchor(log) / MOD <= LastEnd(log) / MOD;
  }

  /** The ticks lost by the looks that ended cycles. */
  function LostAtOff(log: Log): nat {
    match log
    case Booted(_) => 0
    case Then(past, p) => LostAtOff(past) + if p.Off? then Lost(Anchor(past), p.first.read) else 0
  }

  /** Exactly the cycles whose last look came after a wrap are lossy, and the open cycle is
      lossy exactly if its last look did. */
  lemma {:induction false} LossyCyclesExactly(log: Log)
    requires Ideal(log)
    ensures LossyCycles(log) == LostAtOff(log)
    ensures OpenCycleLossy(log)
       <==> log.Then? && !log.poll.Off? && Lost(Anchor(log), log.poll.second.read) == 1
  {
    if log.Then? {
      LossyCyclesExactly(log.past);
      AnchorIsPast(log.past);
      LossGoesOn(log.past, log.poll);
    }
  }

  lemma LossGoesOn(past: Log, p: Poll)
    requires Ordered(past) && Anchor(past) <= LastEnd(past) && Lawful(LastEnd(past), p)
    requires HonestPoll(Anchor(past), p)
    ensures past.Then? && !past.poll.Off? ==>
              Lost(Anchor(past), past.poll.second.read) <= Lost(Anchor(past), p.first.read)
    ensures !p.Off? ==> Lost(Anchor(past), p.first.read) <= Lost(Anchor(past), p.second.read)
    ensures PollUnderReports(Anchor(past), p)
       <==> Lost(Anchor(past), if p.Off? then p.first.read else p.second.read) == 1
  {
    var a := Anchor(past);
    if past.Then? && !past.poll.Off? {
      AnchorIsPast(past.past);
      LostIsMonotone(a, past.poll.second.read, p.first.read);
    }
    if !p.Off? {
      LostIsMonotone(a, p.first.read, p.second.read);
    }
  }

  // ---- successive looks ----

  /** Each look at an anchor reports at least the age its predecessor did and no more than
      the ticks in between allow, stalling by one tick exactly when the counter wrapped. */
  ghost predicate Follows(l: Look, k: Look) {
    && l.age <= k.age <= l.age + (k.read - l.read)
    && k.age - l.age == k.read - l.read - (k.read / MOD - l.read / MOD)
  }

  ghost predicate AgesGrow(log: Log) {
    log.Then? ==>
      && AgesGrow(log.past)
      && (log.past.Then? && !log.past.poll.Off? ==> Follows(log.past.poll.second, log.poll.first))
      && (!log.poll.Off? ==> Follows(log.poll.first, log.poll.second))
  }

  lemma {:induction false} AgesGrowHolds(log: Log, b: nat, h: nat)
    requires Observed(log) && PacedLog(log, b, h)
    requires b + h < MOD && OFF_AGE + h < MOD
    ensures AgesGrow(log)
  {
    match log
    case Booted(_) =>
    case Then(past, p) =>
      AgesGrowHolds(past, b, h);
      BecomesIdeal(past, b, h);
      BecomesIdeal(log, b, h);
      SecondLookFollows(Anchor(past), LastEnd(past), p);
      FirstLookFollows(past, p);
  }

  lemma FirstLookFollows(past: Log, p: Poll)
    requires Ideal(past) && Anchor(past) <= LastEnd(past)
    requires Lawful(LastEnd(past), p) && HonestPoll(Anchor(past), p) && p.end < Anchor(past) + MOD
    ensures past.Then? && !past.poll.Off? ==> Follows(past.poll.second, p.first)
  {
    if past.Then? && !past.poll.Off? {
      AnchorIsPast(past.past);
      LooksAreMonotone(Anchor(past), past.poll.second, p.first);
    }
  }

  lemma SecondLookFollows(a: nat, from: nat, p: Poll)
    requires a <= from && Lawful(from, p) && HonestPoll(a, p) && p.end < a + MOD
    ensures !p.Off? ==> Follows(p.first, p.second)
  {
  }

  // ---- the light ----

  /** When the LED was first lit in the cycle in progress. */
  function FirstOn(log: Log): Option<nat> {
    match log
    case Booted(_) => None
    case Then(past, p) =>
      if p.Off? then None
      else if FirstOn(past).Some? || p.Idle? then FirstOn(past)
      else Some(p.end)
  }

  /** No poll switches the LED off without having lit it in the same cycle. */
  ghost predicate EveryCycleLit(log: Log) {
    log.Then? ==> EveryCycleLit(log.past) && (log.poll.Off? ==> FirstOn(log.past).Some?)
  }

  lemma {:induction false} CyclesAreLit(log: Log, b: nat, h: nat)
    requires Observed(log) && PacedLog(log, b, h)
    requires h <= ON_AGE && b + h < OFF_AGE
    ensures EveryCycleLit(log)
    ensures FirstOn(log).None? ==>
              LastStart(log) + h < Anchor(log) + OFF_AGE + Lost(Anchor(log), LastEnd(log))
  {
    BecomesIdeal(log, b, h);
    match log
    case Booted(_) =>
    case Then(past, p) =>
      CyclesAreLit(past, b, h);
      BecomesIdeal(past, b, h);
      var a := Anchor(past);
      LostIsMonotone(a, LastEnd(past), p.first.read);
      LostIsMonotone(a, LastEnd(past), p.end);
      if !p.Off? {
        LostIsMonotone(a, p.second.read, p.end);
      }
  }

  /** The first cycle of a run whose boot handled 50 ticks or more. */
  predicate LateStart(log: Log, b: nat) {
    Cycles(log) == 0 && b >= ON_AGE
  }

  /** The LED is lit from some instant in [a + 50, a + 50 + h] of the cycle anchored at a,
      and stays lit for between 51 - h and 50 + h ticks; after a late start, the first light
      comes by b + h, and stays for 100 - b - h ticks at least. */
  ghost predicate LitTimes(log: Log, b: nat, h: nat) {
    log.Then? ==>
      && LitTimes(log.past, b, h)
      && (log.poll.Off? ==>
            && FirstOn(log.past).Some?
            && var on, a, late := FirstOn(log.past).value, Anchor(log.past), LateStart(log.past, b);
               && a + ON_AGE <= on && (on <= a + ON_AGE + h || (late && on <= b + h))
               && var lit := log.poll.offAt - on;
                  && lit <= ON_AGE + h
                  && (lit >= ON_AGE + 1 - h || (late && lit >= OFF_AGE - b - h)))
  }

  /** What is known about the light of the cycle in progress. */
  ghost predicate LitSoFar(log: Log, b: nat, h: nat) {
    var a := Anchor(log);
    match FirstOn(log)
    case None =>
      LastStart(log) < a + ON_AGE + Lost(a, LastEnd(log)) || (LateStart(log, b) && LastStart(log) <= b)
    case Some(on) =>
      && a + ON_AGE <= on <= LastEnd(log)
      && (on < a + ON_AGE + h + Lost(a, on) || (LateStart(log, b) && on <= b + h))
  }

  /** What a poll may assume of the polls before it. */
  ghost predicate CycleBefore(past: Log, p: Poll, b: nat, h: nat) {
    && LitSoFar(past, b, h)
    && Lawful(LastEnd(past), p) && HonestPoll(Anchor(past), p)
    && Anchor(past) <= LastEnd(past) && p.end <= LastStart(past) + h
    && LastStart(past) < Anchor(past) + OFF_AGE + Lost(Anchor(past), LastEnd(past))
  }

  lemma LitSoFarStep(past: Log, p: Poll, b: nat, h: nat)
    requires CycleBefore(past, p, b, h)
    ensures LitSoFar(Then(past, p), b, h)
  {
    var a := Anchor(past);
    LostIsMonotone(a, LastEnd(past), p.end);
    if !p.Off? {
      LostIsMonotone(a, p.second.read, p.end);
    }
  }

  lemma LitLength(past: Log, p: Poll, b: nat, h: nat)
    requires CycleBefore(past, p, b, h) && p.Off? && FirstOn(past).Some?
    ensures var lit := p.offAt - FirstOn(past).value;
            && lit <= ON_AGE + h
            && (lit >= ON_AGE + 1 - h || (LateStart(past, b) && lit >= OFF_AGE - b - h))
  {
    LostIsMonotone(Anchor(past), LastEnd(past), p.first.read);
    LostIsMonotone(Anchor(past), FirstOn(past).value, p.first.read);
  }

  lemma {:induction false} LitTimesHold(log: Log, b: nat, h: nat)
    requires Observed(log) && PacedLog(log, b, h)
    requires h <= ON_AGE && b + h < OFF_AGE
    ensures LitTimes(log, b, h) && LitSoFar(log, b, h)
  {
    match log
    case Booted(_) =>
    case Then(past, p) =>
      LitTimesHold(past, b, h);
      CyclesAreLit(log, b, h);
      BecomesIdeal(past, b, h);
      BecomesIdeal(log, b, h);
      NoLaterThan(past, b);
      LitSoFarStep(past, p, b, h);
      if p.Off? {
        LitLength(past, p, b, h);
      }
  }

  lemma NoLaterThan(log: Log, b: nat)
    requires b < OFF_AGE
    requires || LastStart(log) <= Anchor(log) + OFF_AGE - 1 + Lost(Anchor(log), LastEnd(log))
             || (log.Booted? && log.at <= b)
    ensures LastStart(log) < Anchor(log) + OFF_AGE + Lost(Anchor(log), LastEnd(log))
  {
  }

  /** On the pin: the LED is never switched off twice running, nor before it was lit. */
  ghost predicate Phases(s: seq<PinWrite>) {
    forall i :: 0 <= i < |s| && s[i] == SetBits ==> i > 0 && s[i - 1] == ResetBits
  }

  lemma {:induction false} LitCyclesAlternate(log: Log)
    requires EveryCycleLit(log)
    ensures Phases(Commands(log))
    ensures FirstOn(log).Some? ==> Commands(log) != [] && Commands(log)[|Commands(log)| - 1] == ResetBits
  {
    if log.Then? {
      LitCyclesAlternate(log.past);
    }
  }

  /** The commands of a log: one LED_OFF for each completed cycle ... */
  lemma {:induction false} CommandsCount(log: Log)
    ensures multiset(Commands(log))[SetBits] == Cycles(log)
  {
    if log.Then? {
      CommandsCount(log.past);
    }
  }

  /** ... and the last one tells whether the cycle in progress has been lit. */
  lemma {:induction false} LastCommandTells(log: Log)
    ensures var c := Commands(log);
            && (c == [] <==> FirstOn(log).None? && Cycles(log) == 0)
            && (c != [] ==> c[|c| - 1] == if FirstOn(log).Some? then ResetBits else SetBits)
  {
    if log.Then? {
      LastCommandTells(log.past);
    }
  }
}
