/** What is assumed about time, and how the watchdog pays for it. */
module Pacing {
  import opened Firmware
  import opened Blinker
  import opened Chronicle
  import opened Coupling

  // ---- pace: from the start of a poll to the end of the next ----

  /** Boot takes at most `b` ticks; afterwards at most `h` ticks have passed since the last
      finished poll started. */
  ghost predicate Paced(w: World, b: nat, h: nat) {
    w.h.now <= if w.m.pc.Init? then b else LastStart(w.h.log) + h
  }

  ghost predicate PacedRun(r: Run, b: nat, h: nat) {
    Paced(End(r), b, h) && (r.After? ==> PacedRun(r.past, b, h))
  }

  lemma PacedStep(w: World, e: Event, b: nat, h: nat)
    requires Coupled(w) && Paced(w, b, h) && PacedLog(w.h.log, b, h)
    ensures PacedLog(Step(w, e).h.log, b, h)
  {
  }

  lemma {:induction false} PacedRunsHavePacedLogs(r: Run, b: nat, h: nat)
    requires PacedRun(r, b, h)
    ensures PacedLog(End(r).h.log, b, h)
  {
    if r.After? {
      PacedRunsHavePacedLogs(r.past, b, h);
      AlwaysCoupled(r.past);
      PacedStep(End(r.past), r.event, b, h);
    }
  }

  // ---- pace from bounded polling ----

  /** led_run_proc has been entered and has not returned. */
  predicate InPoll(pc: Pc) {
    !pc.Init? && !pc.LoopFeed? && pc != Call(OffTest)
  }

  /** At most `g` ticks from one poll's start to the next, at most `d` inside a poll. */
  ghost predicate Polling(w: World, b: nat, g: nat, d: nat) {
    w.h.now <=
      if w.m.pc.Init? then b
      else if InPoll(w.m.pc) then w.h.cur.start + d
      else LastStart(w.h.log) + g
  }

  ghost predicate PollingRun(r: Run, b: nat, g: nat, d: nat) {
    Polling(End(r), b, g, d) && (r.After? ==> PollingRun(r.past, b, g, d))
  }

  ghost predicate StartedInTime(w: World, g: nat) {
    InPoll(w.m.pc) ==> w.h.cur.start <= LastStart(w.h.log) + g
  }

  lemma StartedInTimeStep(w: World, e: Event, b: nat, g: nat, d: nat)
    requires StartedInTime(w, g) && Polling(w, b, g, d)
    ensures StartedInTime(Step(w, e), g)
  {
  }

  lemma {:induction false} BoundedPollingIsPaced(r: Run, b: nat, g: nat, d: nat)
    requires PollingRun(r, b, g, d)
    ensures StartedInTime(End(r), g) && PacedRun(r, b, g + d)
  {
    if r.After? {
      BoundedPollingIsPaced(r.past, b, g, d);
      StartedInTimeStep(End(r.past), r.event, b, g, d);
    }
  }

  // ---- pace from the watchdog ----

  /** Boot takes at most `b` ticks; afterwards at most `j` fit between two feeds. */
  ghost predicate Gapped(w: World, b: nat, j: nat) {
    w.h.now <= if w.m.pc.Init? then b else w.h.hunger.fed + j
  }

  ghost predicate GapRun(r: Run, b: nat, j: nat) {
    Gapped(End(r), b, j) && (r.After? ==> GapRun(r.past, b, j))
  }

  /** Every pass of the loop holds exactly one feed and one poll. */
  ghost predicate FedInTime(w: World, j: nat) {
    !w.m.pc.Init? ==>
      && w.h.hunger.fed <= w.h.now
      && w.h.hunger.fed <= LastStart(w.h.log) + (if w.m.pc.LoopFeed? then 0 else j)
      && (InPoll(w.m.pc) ==> w.h.hunger.fed <= w.h.cur.start)
  }

  lemma FedInTimeStep(w: World, e: Event, b: nat, j: nat)
    requires FedInTime(w, j) && Gapped(w, b, j)
    ensures FedInTime(Step(w, e), j)
  {
  }

  /** A watchdog that keeps being fed is a pacemaker: if at most `j` ticks fit between two
      feeds, then at most 2j lie between one poll's start and the next poll's end. */
  lemma {:induction false} FeedGapsPace(r: Run, b: nat, j: nat)
    requires GapRun(r, b, j)
    ensures FedInTime(End(r), j)
    ensures PacedRun(r, b, 2 * j)
  {
    if r.After? {
      FeedGapsPace(r.past, b, j);
      FedInTimeStep(End(r.past), r.event, b, j);
    }
  }

  // ---- feed gaps from the rates of the two clocks ----

  /** At most `p` ticks are handled between two counts of the running watchdog. */
  ghost predicate Rated(w: World, b: nat, p: nat) {
    (w.m.wd.on ==> w.h.hunger.sinceCount <= p) && (w.m.pc.Init? ==> w.h.now <= b)
  }

  ghost predicate RatedRun(r: Run, b: nat, p: nat) {
    Rated(End(r), b, p) && (r.After? ==> RatedRun(r.past, b, p))
  }

  /** Ticks since the last feed are paid for by watchdog counts. */
  ghost predicate Paid(w: World, p: nat) {
    !w.m.pc.Init? ==> w.h.now <= w.h.hunger.fed + p * w.h.hunger.counts + w.h.hunger.sinceCount
  }

  lemma OneMore(p: nat, k: nat)
    ensures p * (k + 1) == p * k + p
  {
  }

  lemma PaidStep(w: World, e: Event, b: nat, p: nat)
    requires Paid(w, p) && Rated(w, b, p) && (!w.m.pc.Init? ==> w.m.wd.on)
    ensures Paid(Step(w, e), p)
  {
    OneMore(p, w.h.hunger.counts);
  }

  lemma CountsPay(p: nat, k: nat)
    requires k < WD_RELOAD
    ensures p * k + p <= WD_RELOAD * p
  {
    var left := WD_RELOAD - 1 - k;
    assert WD_RELOAD * p == p * (k + 1 + left) == p * k + p + p * left;
  }

  lemma WatchdogRuns(r: Run)
    requires !End(r).m.pc.Init?
    ensures End(r).m.wd.on && End(r).h.hunger.counts < WD_RELOAD
  {
    AlwaysCoupled(r);
  }

  /** Nothing is assumed about the main thread's speed: a thread too slow to feed within
      2000 counts is reset, so 2000p ticks bound every gap. */
  lemma {:induction false} RatesBoundGaps(r: Run, b: nat, p: nat)
    requires RatedRun(r, b, p)
    ensures Paid(End(r), p)
    ensures GapRun(r, b, WD_RELOAD * p)
  {
    if r.After? {
      RatesBoundGaps(r.past, b, p);
      if !End(r.past).m.pc.Init? {
        WatchdogRuns(r.past);
      }
      PaidStep(End(r.past), r.event, b, p);
    }
    if !End(r).m.pc.Init? {
      WatchdogRuns(r);
      CountsPay(p, End(r).h.hunger.counts);
    }
  }

  /** A handled tick of the loop that is not the first since the last feed. */
  predicate TicksAgain(w: World, e: Event) {
    e == SysTick && Handles(w.m) && !w.m.pc.Init? && w.h.hunger.fed < w.h.now
  }

  /** The slower tick of the target: at least `k` watchdog counts lie between two ticks that
      the loop handles. Only ticks between the same two feeds need to be compared, so nothing
      is asked of the first tick after a boot or a feed. */
  ghost predicate SpacedRun(r: Run, b: nat, k: nat) {
    && (End(r).m.pc.Init? ==> End(r).h.now <= b)
    && (r.After? ==>
          && SpacedRun(r.past, b, k)
          && (TicksAgain(End(r.past), r.event) ==> End(r.past).h.hunger.sinceTick >= k))
  }

  /** The counts that n spacings of k counts take: k * n, by repeated addition. */
  function Span(k: nat, n: nat): nat {
    if n == 0 then 0 else Span(k, n - 1) + k
  }

  lemma {:induction false} SpanIsMonotone(k: nat, m: nat, n: nat)
    ensures m <= n ==> Span(k, m) <= Span(k, n)
  {
    if m < n {
      SpanIsMonotone(k, m, n - 1);
    }
  }

  lemma {:induction false} SpanIsProduct(k: nat, n: nat)
    ensures Span(k, n) == k * n
  {
    if n > 0 {
      SpanIsProduct(k, n - 1);
      OneMore(k, n - 1);
    }
  }

  /** After n ticks since the last feed, at least n - 1 spacings have passed. */
  ghost predicate Spaced(w: World, k: nat) {
    !w.m.pc.Init? ==>
      && w.h.hunger.fed <= w.h.now
      && (w.h.hunger.fed < w.h.now ==>
            Span(k, w.h.now - w.h.hunger.fed - 1) + w.h.hunger.sinceTick <= w.h.hunger.counts)
  }

  lemma SpacedStep(w: World, e: Event, k: nat)
    requires Spaced(w, k)
    requires TicksAgain(w, e) ==> w.h.hunger.sinceTick >= k
    ensures Spaced(Step(w, e), k)
  {
  }

  /** If j spacings last as long as the watchdog, at most j ticks fit between two feeds. */
  lemma {:induction false} SpacedTicksBoundGaps(r: Run, b: nat, k: nat, j: nat)
    requires SpacedRun(r, b, k) && WD_RELOAD <= Span(k, j)
    ensures Spaced(End(r), k)
    ensures GapRun(r, b, j)
  {
    if r.After? {
      SpacedTicksBoundGaps(r.past, b, k, j);
      SpacedStep(End(r.past), r.event, k);
    }
    var h := End(r).h;
    if !End(r).m.pc.Init? && h.now > h.hunger.fed {
      WatchdogRuns(r);
      SpanIsMonotone(k, j, h.now - h.hunger.fed - 1);
    }
  }
}
