/** Runs built step by step, in which no interrupt falls inside a poll. */
module QuietRuns {
  import opened Word32
  import opened Firmware
  import opened Blinker
  import opened BlinkCycles
  import opened Chronicle
  import opened Coupling
  import opened Pacing

  /** What a run is to keep to: a distance between polls, or a gap between feeds. */
  datatype Pace = PollPace(h: nat) | FeedGap(j: nat)

  /** The latest time the pace allows before the next poll or feed. */
  function Limit(w: World, b: nat, pace: Pace): nat {
    if w.m.pc.Init? then b
    else match pace
         case PollPace(h) => LastStart(w.h.log) + h
         case FeedGap(j) => w.h.hunger.fed + j
  }

  ghost predicate KeepsRun(r: Run, b: nat, pace: Pace) {
    End(r).h.now <= Limit(End(r), b, pace) && (r.After? ==> KeepsRun(r.past, b, pace))
  }

  lemma {:induction false} KeptPollPace(r: Run, b: nat, h: nat)
    requires KeepsRun(r, b, PollPace(h))
    ensures PacedRun(r, b, h)
  {
    if r.After? {
      KeptPollPace(r.past, b, h);
    }
  }

  lemma {:induction false} KeptFeedGap(r: Run, b: nat, j: nat)
    requires KeepsRun(r, b, FeedGap(j))
    ensures GapRun(r, b, j)
  {
    if r.After? {
      KeptFeedGap(r.past, b, j);
    }
  }

  function Ticks(r: Run, n: nat): Run {
    if n == 0 then r else After(Ticks(r, n - 1), SysTick)
  }

  lemma {:induction false} TicksPass(r: Run, n: nat, b: nat, pace: Pace)
    requires KeepsRun(r, b, pace) && Handles(End(r).m)
    requires End(r).h.now + n <= Limit(End(r), b, pace)
    ensures KeepsRun(Ticks(r, n), b, pace)
    ensures var w, w' := End(r), End(Ticks(r, n));
            && w'.m == w.m.(jiffies := w'.m.jiffies)
            && w'.h == w.h.(now := w.h.now + n, hunger := w'.h.hunger)
            && w'.h.hunger.fed == w.h.hunger.fed
  {
    if n > 0 {
      TicksPass(r, n - 1, b, pace);
    }
  }

  /** A step of the main thread in a run that has seen no interrupt yet. */
  lemma QuietStep(r: Run, b: nat, pace: Pace)
    requires KeepsRun(r, b, pace) && End(r).m.pc.Init? && !End(r).m.irq.pending
    ensures KeepsRun(After(r, Main), b, pace)
    ensures var w, step := End(r), End(r).m.pc.step;
            End(After(r, Main)) == World(ExecInit(w.m, step), ObserveInit(w.m, w.h, step), w.resets)
  {
  }

  lemma Unmasked(b: nat, pace: Pace) returns (r: Run)
    ensures KeepsRun(r, b, pace)
    ensures var w := End(r);
            w.m.pc == Init(WdEnable) && Handles(w.m) && !w.m.irq.pending && w.h.now == 0
  {
    r := PowerOn;
    for i := 0 to 9
      invariant KeepsRun(r, b, pace)
      invariant var w := End(r);
                && w.m.pc.Init? && Rank(w.m.pc.step) == i && !w.m.irq.pending
                && (i >= 7 ==> w.m.irq.ticking) && (i == 9 ==> !w.m.irq.masked) && w.h.now == 0
    {
      QuietStep(r, b, pace);
      r := After(r, Main);
    }
  }

  /** At the top of the loop, with the last feed at `fed`. */
  ghost predicate AtLoop(w: World, now: nat, fed: nat, log: Log) {
    w.m.pc == LoopFeed && w.h.now == now && w.h.hunger.fed == fed && w.h.log == log
  }

  lemma BootTakes(t: nat, b: nat, pace: Pace) returns (r: Run)
    requires t <= b
    ensures KeepsRun(r, b, pace) && AtLoop(End(r), t, t, Booted(t))
  {
    r := Unmasked(b, pace);
    TicksPass(r, t, b, pace);
    r := Ticks(r, t);
    QuietStep(r, b, pace);
    r := After(r, Main);
    QuietStep(r, b, pace);
    r := After(r, Main);
  }

  lemma PollsFollow(r: Run)
    requires !End(r).m.pc.Init?
    ensures var w := End(r);
            && LastStart(w.h.log) <= w.h.now
            && (w.m.pc.Decide? || w.m.pc.AnchorWrite? || w.m.pc.LedOn? ==> LastStart(w.h.log) <= w.h.cur.start)
  {
    AlwaysCoupled(r);
    StartKnown(End(r).m, End(r).h);
    StartBeforeEnd(End(r).h.log);
  }

  /** A step of the loop that no interrupt disturbs. */
  lemma LoopStep(r: Run, b: nat, pace: Pace)
    requires KeepsRun(r, b, pace) && !End(r).m.pc.Init?
    ensures KeepsRun(After(r, Main), b, pace)
    ensures var w := End(r);
            End(After(r, Main)) == World(ExecLoop(w.m), ObserveLoop(w.m, w.h), w.resets)
  {
    PollsFollow(r);
    assert Step(End(r), Main).h.now <= Limit(Step(End(r), Main), b, pace);
  }

  /** The age reported at tick `t` about an anchor at `a` when no tick falls inside the call. */
  function QuietAge(t: nat, a: nat): Word
    requires a <= t
  {
    (t - a - if t % MOD < a % MOD then 1 else 0) % MOD
  }

  function QuietLook(t: nat, a: nat): Look
    requires a <= t
  {
    Look(t, t, t, t, QuietAge(t, a))
  }

  function QuietPoll(t: nat, a: nat): Poll
    requires a <= t
  {
    var l := QuietLook(t, a);
    if l.age >= OFF_AGE then Off(t, l, t, t, t)
    else if l.age >= ON_AGE then On(t, l, l, t)
    else Idle(t, l, l, t)
  }

  /** The first read is made, and no tick has fallen since the call. */
  ghost predicate JustRead(w: World, site: Site) {
    && w.m.pc.Compare? && w.m.pc.site == site
    && w.h.cur.call == w.h.cur.first == w.h.now >= w.h.anchor
  }

  ghost predicate LookFinished(w: World, w0: World, site: Site)
    requires w0.h.anchor <= w0.h.now
  {
    var l := QuietLook(w0.h.now, w0.h.anchor);
    && w.m.pc == Decide(site, l.age)
    && w.h.now == w0.h.now && w.h.anchor == w0.h.anchor && w.h.log == w0.h.log
    && w.h.hunger == w0.h.hunger && w.h.cur.start == w0.h.cur.start
    && w.h.cur.offLook == (if site == OffTest then l else w0.h.cur.offLook)
    && (site == OnTest ==> w.h.cur.onLook == l)
  }

  lemma QuietAgeIsComputed(t: nat, a: nat)
    requires a <= t
    ensures QuietAge(t, a) == if t % MOD >= a % MOD then t % MOD - a % MOD
                              else Add(t % MOD, Complement(a % MOD))
  {
    if t % MOD >= a % MOD {
      PlainDifference(t, a);
    } else {
      WrapBranchSum(t, a);
    }
  }

  lemma JustReadValues(r: Run, site: Site)
    requires JustRead(End(r), site)
    ensures var w := End(r);
            w.m.pc.tmp == w.m.jiffies == w.h.now % MOD && w.m.pc.bef == w.h.anchor % MOD
  {
    AlwaysCoupled(r);
  }

  lemma FinishPlain(r0: Run, site: Site, b: nat, pace: Pace) returns (r: Run)
    requires KeepsRun(r0, b, pace) && JustRead(End(r0), site) && End(r0).m.pc.tmp >= End(r0).m.pc.bef
    ensures KeepsRun(r, b, pace) && LookFinished(End(r), End(r0), site)
  {
    JustReadValues(r0, site);
    QuietAgeIsComputed(End(r0).h.now, End(r0).h.anchor);
    LoopStep(r0, b, pace);
    r := After(r0, Main);
  }

  lemma FinishWrapped(r0: Run, site: Site, b: nat, pace: Pace) returns (r: Run)
    requires KeepsRun(r0, b, pace) && JustRead(End(r0), site) && End(r0).m.pc.tmp < End(r0).m.pc.bef
    ensures KeepsRun(r, b, pace) && LookFinished(End(r), End(r0), site)
  {
    JustReadValues(r0, site);
    QuietAgeIsComputed(End(r0).h.now, End(r0).h.anchor);
    LoopStep(r0, b, pace);
    r := After(r0, Main);
    LoopStep(r, b, pace);
    r := After(r, Main);
    LoopStep(r, b, pace);
    r := After(r, Main);
  }

  lemma LookQuietly(r0: Run, site: Site, b: nat, pace: Pace) returns (r: Run)
    requires KeepsRun(r0, b, pace) && End(r0).m.pc == Call(site)
    requires End(r0).h.anchor <= End(r0).h.now
    ensures KeepsRun(r, b, pace)
    ensures var w, w0, l := End(r), End(r0), QuietLook(End(r0).h.now, End(r0).h.anchor);
            && w.m.pc == Decide(site, l.age)
            && w.h.now == w0.h.now && w.h.anchor == w0.h.anchor && w.h.log == w0.h.log
            && w.h.hunger == w0.h.hunger
            && w.h.cur.start == (if site == OffTest then w0.h.now else w0.h.cur.start)
            && w.h.cur.offLook == (if site == OffTest then l else w0.h.cur.offLook)
            && (site == OnTest ==> w.h.cur.onLook == l)
  {
    LoopStep(r0, b, pace);
    r := After(r0, Main);
    LoopStep(r, b, pace);
    r := After(r, Main);
    if End(r).m.pc.tmp >= End(r).m.pc.bef {
      r := FinishPlain(r, site, b, pace);
    } else {
      r := FinishWrapped(r, site, b, pace);
    }
  }

  /** The pace allows a feed at tick `f` and, in the same pass of the loop, a poll at `t`. */
  predicate Reaches(w: World, f: nat, t: nat, pace: Pace) {
    && w.h.now <= f <= t
    && match pace
       case PollPace(h) => t <= LastStart(w.h.log) + h
       case FeedGap(j) => f <= w.h.hunger.fed + j && t <= f + j
  }

  /** Wait, in the loop, until tick `t`. */
  lemma WaitUntil(r0: Run, t: nat, b: nat, pace: Pace) returns (r: Run)
    requires KeepsRun(r0, b, pace) && !End(r0).m.pc.Init? && Handles(End(r0).m)
    requires End(r0).h.now <= t <= Limit(End(r0), b, pace)
    ensures KeepsRun(r, b, pace)
    ensures var w, w0 := End(r), End(r0);
            && w.m.pc == w0.m.pc && Handles(w.m) && w.h.now == t
            && w.h.hunger.fed == w0.h.hunger.fed && w.h.log == w0.h.log
  {
    TicksPass(r0, t - End(r0).h.now, b, pace);
    r := Ticks(r0, t - End(r0).h.now);
  }

  /** Wait at the top of the loop until tick `f`, feed, and wait for the poll until `t`. */
  lemma WaitFeedWait(r0: Run, f: nat, t: nat, b: nat, pace: Pace) returns (r: Run)
    requires KeepsRun(r0, b, pace) && End(r0).m.pc.LoopFeed? && Handles(End(r0).m)
    requires Reaches(End(r0), f, t, pace)
    ensures KeepsRun(r, b, pace)
    ensures var w := End(r);
            w.m.pc == Call(OffTest) && w.h.now == t && w.h.hunger.fed == f && w.h.log == End(r0).h.log
  {
    r := WaitUntil(r0, f, b, pace);
    LoopStep(r, b, pace);
    r := After(r, Main);
    r := WaitUntil(r, t, b, pace);
  }

  /** One quiet pass of the loop, fed at `f` and polling at `t`. */
  lemma PollQuietly(r0: Run, f: nat, t: nat, b: nat, pace: Pace) returns (r: Run)
    requires KeepsRun(r0, b, pace) && End(r0).m.pc.LoopFeed?
    requires Reaches(End(r0), f, t, pace)
    ensures Anchor(End(r0).h.log) <= t
    ensures KeepsRun(r, b, pace)
    ensures var log := End(r0).h.log;
            AtLoop(End(r), t, f, Then(log, QuietPoll(t, Anchor(log))))
  {
    AlwaysCoupled(r0);
    r := WaitFeedWait(r0, f, t, b, pace);
    AlwaysCoupled(r);
    r := LookQuietly(r, OffTest, b, pace);
    r := DecideQuietly(r, b, pace);
  }

  lemma DecideQuietly(r0: Run, b: nat, pace: Pace) returns (r: Run)
    requires KeepsRun(r0, b, pace)
    requires var w0 := End(r0);
             && w0.h.anchor <= w0.h.now == w0.h.cur.start
             && w0.h.cur.offLook == QuietLook(w0.h.now, w0.h.anchor)
             && w0.m.pc == Decide(OffTest, w0.h.cur.offLook.age)
    ensures KeepsRun(r, b, pace)
    ensures var h0 := End(r0).h;
            AtLoop(End(r), h0.now, h0.hunger.fed, Then(h0.log, QuietPoll(h0.now, h0.anchor)))
  {
    LoopStep(r0, b, pace);
    r := After(r0, Main);
    if End(r).m.pc.LedOff? {
      LoopStep(r, b, pace);
      r := After(r, Main);
      LoopStep(r, b, pace);
      r := After(r, Main);
      LoopStep(r, b, pace);
      r := After(r, Main);
    } else {
      r := LookQuietly(r, OnTest, b, pace);
      r := DecideOnQuietly(r, b, pace);
    }
  }

  lemma DecideOnQuietly(r0: Run, b: nat, pace: Pace) returns (r: Run)
    requires KeepsRun(r0, b, pace)
    requires var w0 := End(r0);
             && w0.h.anchor <= w0.h.now == w0.h.cur.start
             && w0.h.cur.offLook == w0.h.cur.onLook == QuietLook(w0.h.now, w0.h.anchor)
             && w0.h.cur.onLook.age < OFF_AGE
             && w0.m.pc == Decide(OnTest, w0.h.cur.onLook.age)
    ensures KeepsRun(r, b, pace)
    ensures var h0 := End(r0).h;
            AtLoop(End(r), h0.now, h0.hunger.fed, Then(h0.log, QuietPoll(h0.now, h0.anchor)))
  {
    LoopStep(r0, b, pace);
    r := After(r0, Main);
    if End(r).m.pc.LedOn? {
      LoopStep(r, b, pace);
      r := After(r, Main);
    }
  }

  // ---- whole cycles ----

  /** How far apart polls can be that are fed and made at the same tick. */
  function Stride(pace: Pace): nat {
    match pace
    case PollPace(h) => h
    case FeedGap(j) => j
  }

  /** In the cycle anchored at `a`, some polls have been made, the last, with its feed, at
      tick `now`. */
  ghost predicate InCycle(r: Run, now: nat, a: nat, lit: Option<nat>, b: nat, pace: Pace) {
    var log := End(r).h.log;
    && KeepsRun(r, b, pace) && AtLoop(End(r), now, now, log)
    && LastStart(log) == now && Anchor(log) == a <= now && FirstOn(log) == lit
  }

  lemma QuietAgeInWindow(t: nat, a: nat)
    requires a <= t < a + MOD
    ensures QuietAge(t, a) == t - a - Lost(a, t)
  {
    SamplingBound(a, QuietLook(t, a));
  }

  /** One poll within reach, when the age it will report is known. */
  lemma PollInCycle(r0: Run, now: nat, t: nat, a: nat, lit: Option<nat>, b: nat, pace: Pace) returns (r: Run)
    requires InCycle(r0, now, a, lit, b, pace)
    requires now <= t <= now + Stride(pace) && t < a + MOD
    ensures KeepsRun(r, b, pace) && a <= t
    ensures End(r).h.log == Then(End(r0).h.log, QuietPoll(t, a))
    ensures QuietPoll(t, a).first.age == t - a - Lost(a, t)
    ensures t - a - Lost(a, t) < OFF_AGE ==>
              InCycle(r, t, a, if lit.None? && t - a - Lost(a, t) >= ON_AGE then Some(t) else lit, b, pace)
    ensures t - a - Lost(a, t) >= OFF_AGE ==> InCycle(r, t, t, None, b, pace)
  {
    QuietAgeInWindow(t, a);
    r := PollQuietly(r0, t, t, b, pace);
  }

  /** From the start of a poll to the end of the next, in a quiet run. */
  function NextPoll(pace: Pace): nat {
    match pace
    case PollPace(h) => h
    case FeedGap(j) => 2 * j
  }

  /** One poll as late as the pace allows: its feed, if it is feeds that count, halfway. */
  lemma PollFar(r0: Run, now: nat, t: nat, a: nat, lit: Option<nat>, b: nat, pace: Pace) returns (r: Run)
    requires InCycle(r0, now, a, lit, b, pace)
    requires now <= t <= now + NextPoll(pace)
    ensures KeepsRun(r, b, pace) && a <= t && End(r).m.pc.LoopFeed? && End(r).h.now == t
    ensures End(r).h.hunger.fed + Stride(pace) >= t
    ensures End(r).h.log == Then(End(r0).h.log, QuietPoll(t, a))
  {
    var f := if pace.PollPace? then t else now + (t - now) / 2;
    r := PollQuietly(r0, f, t, b, pace);
  }

  /** Polls as far apart as the pace allows, up to tick `t`, that do not change the light: the
      LED is lit already, or the reported ages stay below 50. */
  lemma PollUpTo(r0: Run, now: nat, t: nat, a: nat, lit: Option<nat>, b: nat, pace: Pace) returns (r: Run)
    requires InCycle(r0, now, a, lit, b, pace)
    requires Stride(pace) > 0 && now <= t < a + MOD
    requires t - a - Lost(a, t) < if lit.Some? then OFF_AGE else ON_AGE
    ensures InCycle(r, t, a, lit, b, pace)
  {
    r := r0;
    var u := now;
    while u < t
      invariant now <= u <= t && InCycle(r, u, a, lit, b, pace)
    {
      var next := if u + Stride(pace) < t then u + Stride(pace) else t;
      StillYounger(a, next, t);
      r := PollInCycle(r, u, next, a, lit, b, pace);
      u := next;
    }
  }

  lemma StillYounger(a: nat, t: nat, u: nat)
    requires a <= t <= u < a + MOD
    ensures t - a - Lost(a, t) <= u - a - Lost(a, u)
  {
    LostIsMonotone(a, t, u);
  }

  /** From the anchor to a poll at age 50, which lights the LED. */
  lemma LightAt50(r0: Run, a: nat, b: nat, pace: Pace) returns (r: Run)
    requires InCycle(r0, a, a, None, b, pace) && Stride(pace) > 0 && a % MOD + 50 < MOD
    ensures InCycle(r, a + 50, a, Some(a + 50), b, pace)
  {
    SameLap(a, a + 49);
    SameLap(a, a + 50);
    r := PollUpTo(r0, a, a + 49, a, None, b, pace);
    r := PollInCycle(r, a + 49, a + 50, a, None, b, pace);
  }

  lemma SameLap(a: nat, t: nat)
    requires a <= t && a % MOD + (t - a) < MOD
    ensures Lost(a, t) == 0
  {
  }

  lemma NextLap(a: nat, t: nat)
    requires a <= t < a + MOD && a % MOD + (t - a) >= MOD
    ensures Lost(a, t) == 1
  {
  }

  /** A cycle of exactly 100 ticks, without a wrap. */
  lemma ShortestCycle(r0: Run, a: nat, b: nat, pace: Pace) returns (r: Run)
    requires InCycle(r0, a, a, None, b, pace) && Stride(pace) > 0 && a % MOD + 100 < MOD
    ensures InCycle(r, a + 100, a + 100, None, b, pace)
  {
    SameLap(a, a + 99);
    SameLap(a, a + 100);
    r := LightAt50(r0, a, b, pace);
    r := PollUpTo(r, a + 50, a + 99, a, Some(a + 50), b, pace);
    r := PollInCycle(r, a + 99, a + 100, a, Some(a + 50), b, pace);
  }

  lemma FirstCycleStarts(b: nat, pace: Pace) returns (r: Run)
    ensures InCycle(r, 0, 0, None, b, pace)
  {
    r := BootTakes(0, b, pace);
  }

  /** The last multiple of 100 before the counter wraps. */
  const LAST_ANCHOR: nat := 4294967200

  /** Cycles of 100 ticks, up to the wrap. */
  lemma ReachLastAnchor(b: nat, pace: Pace) returns (r: Run)
    requires Stride(pace) > 0
    ensures InCycle(r, LAST_ANCHOR, LAST_ANCHOR, None, b, pace)
  {
    r := FirstCycleStarts(b, pace);
    var a: nat := 0;
    while a < LAST_ANCHOR
      invariant a % 100 == 0 && a <= LAST_ANCHOR && InCycle(r, a, a, None, b, pace)
    {
      r := ShortestCycle(r, a, b, pace);
      a := a + 100;
    }
  }

  /** The cycle in which the counter wraps takes 101 ticks when polled at every tick. */
  lemma ShortestWrappedCycle(r0: Run, a: nat, b: nat, pace: Pace) returns (r: Run)
    requires InCycle(r0, a, a, None, b, pace) && Stride(pace) > 0
    requires a % MOD + 50 < MOD <= a % MOD + 100
    ensures InCycle(r, a + 101, a + 101, None, b, pace)
  {
    NextLap(a, a + 100);
    NextLap(a, a + 101);
    r := LightAt50(r0, a, b, pace);
    r := PollUpTo(r, a + 50, a + 100, a, Some(a + 50), b, pace);
    r := PollInCycle(r, a + 100, a + 101, a, Some(a + 50), b, pace);
  }

  /** From the last anchor of one lap of the counter to the last of the next: it comes five
      ticks later in the lap. */
  lemma NextLastAnchor(r0: Run, a0: nat, s: nat, b: nat, pace: Pace) returns (r: Run, a: nat)
    requires InCycle(r0, a0, a0, None, b, pace) && Stride(pace) > 0
    requires a0 % MOD == LAST_ANCHOR + s && s + 50 < 96
    ensures InCycle(r, a, a, None, b, pace) && a % MOD == LAST_ANCHOR + s + 5
  {
    r := ShortestWrappedCycle(r0, a0, b, pace);
    a := a0 + 101;
    LapAdvances(a0, 101);
    var left: nat := LAST_ANCHOR;
    while left > 0
      invariant left % 100 == 0 && left <= LAST_ANCHOR
      invariant a % MOD == LAST_ANCHOR - left + s + 5 && InCycle(r, a, a, None, b, pace)
    {
      r := ShortestCycleInLap(r, a, b, pace);
      a, left := a + 100, left - 100;
    }
  }

  lemma ShortestCycleInLap(r0: Run, a: nat, b: nat, pace: Pace) returns (r: Run)
    requires InCycle(r0, a, a, None, b, pace) && Stride(pace) > 0 && a % MOD + 100 < MOD
    ensures InCycle(r, a + 100, a + 100, None, b, pace) && (a + 100) % MOD == a % MOD + 100
  {
    r := ShortestCycle(r0, a, b, pace);
    LapAdvances(a, 100);
  }

  lemma LapAdvances(a: nat, n: nat)
    requires n < MOD
    ensures (a + n) % MOD == if a % MOD + n < MOD then a % MOD + n else a % MOD + n - MOD
  {
  }

  /** After ten wraps an anchor lies 46 ticks before a wrap. */
  lemma ReachLateAnchor(b: nat, pace: Pace) returns (r: Run, a: nat)
    requires Stride(pace) > 0
    ensures InCycle(r, a, a, None, b, pace) && a % MOD == MOD - 46
  {
    r := ReachLastAnchor(b, pace);
    a := LAST_ANCHOR;
    for s := 0 to 10
      invariant InCycle(r, a, a, None, b, pace) && a % MOD == LAST_ANCHOR + 5 * s
    {
      r, a := NextLastAnchor(r, a, 5 * s, b, pace);
    }
  }
}
