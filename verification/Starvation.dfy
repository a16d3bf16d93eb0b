/** The watchdog: exactly when does it reset the system? */
module Starvation {
  import opened Firmware
  import opened Chronicle
  import opened Coupling

  /** The events of `s`, from the world `w` on. */
  function From(w: World, s: Run): World {
    match s
    case PowerOn => w
    case After(past, e) => Step(From(w, past), e)
  }

  function Counts(s: Run): nat {
    match s
    case PowerOn => 0
    case After(past, e) => Counts(past) + if e == WdCount then 1 else 0
  }

  predicate Feeds(pc: Pc) {
    pc == Init(BootFeed) || pc == LoopFeed
  }

  /** The main thread feeds the watchdog nowhere in `s`, up to a reset. */
  ghost predicate FeedFree(w: World, s: Run) {
    s.After? ==>
      && FeedFree(w, s.past)
      && (From(w, s.past).resets == w.resets && s.event == Main ==> !Feeds(From(w, s.past).m.pc))
  }

  /** A reset after `s`: everything off, before the first step of system_init. */
  function Restarted(w: World, s: Run): World {
    World(Machine(Init(RccConfig), 0, 0, [], Irq(false, false, false), Watchdog(false, false, 0xFFF, 0xFFF)),
          FRESH, From(w, s).resets + 1)
  }

  lemma HungryStep(w: World, e: Event)
    requires Coupled(w) && w.m.wd.on && !(e == Main && Feeds(w.m.pc))
    ensures e == WdCount && w.m.wd.count == 1 ==> Step(w, e).resets == w.resets + 1
    ensures !(e == WdCount && w.m.wd.count == 1) ==>
              var w' := Step(w, e);
              && w'.resets == w.resets && w'.m.wd.on
              && w'.m.wd.count == w.m.wd.count - if e == WdCount then 1 else 0
  {
  }

  lemma CoupledStep(w: World, e: Event)
    requires Coupled(w)
    ensures Coupled(Step(w, e))
  {
    match e
    case Main => CoupledMain(w);
    case SysTick => CoupledTick(w);
    case WdCount => CoupledWdCount(w);
  }

  /** Without a feed, the watchdog resets the system if and only if it counts at least as
      often as its counter stands; until then the counter stays positive. */
  lemma {:induction false} ResetExactlyWhenStarved(w: World, s: Run)
    requires Coupled(w) && w.m.wd.on && FeedFree(w, s)
    ensures Coupled(From(w, s))
    ensures From(w, s).resets > w.resets <==> Counts(s) >= w.m.wd.count
    ensures From(w, s).resets >= w.resets
    ensures From(w, s).resets == w.resets ==>
              From(w, s).m.wd.on && From(w, s).m.wd.count == w.m.wd.count - Counts(s) > 0
    ensures s.After? && From(w, s).resets > From(w, s.past).resets ==> From(w, s) == Restarted(w, s.past)
  {
    if s.After? {
      ResetExactlyWhenStarved(w, s.past);
      CoupledStep(From(w, s.past), s.event);
      if From(w, s.past).resets == w.resets {
        HungryStep(From(w, s.past), s.event);
      }
    }
  }

  /** From any feed of any run: a gap of 2000 or more watchdog counts forces a reset and a
      shorter one never does. */
  lemma FeedBuysTwoSeconds(r: Run, s: Run)
    requires Feeds(End(r).m.pc) && FeedFree(Step(End(r), Main), s)
    ensures var w := Step(End(r), Main);
            && (From(w, s).resets > End(r).resets <==> Counts(s) >= 2000)
            && (s.After? && From(w, s).resets > From(w, s.past).resets ==> From(w, s) == Restarted(w, s.past))
  {
    AlwaysCoupled(r);
    CoupledMain(End(r));
    ResetExactlyWhenStarved(Step(End(r), Main), s);
  }

  /** Nothing but a watchdog count that finds the counter at one resets the system, and the
      counter of a running watchdog is always positive. */
  lemma CounterStaysPositive(r: Run, e: Event)
    requires End(r).m.wd.on
    ensures End(r).m.wd.count > 0
    ensures Step(End(r), e).resets > End(r).resets <==> e == WdCount && End(r).m.wd.count == 1
  {
    AlwaysCoupled(r);
  }

  /** Watchdog counts since the watchdog was enabled or last fed, told from the events. */
  function GapLength(r: Run): nat {
    match r
    case PowerOn => 0
    case After(past, e) =>
      var m := End(past).m;
      if e == Main && (Feeds(m.pc) || m.pc == Init(WdEnable)) then 0
      else if e == WdCount && m.wd.on then GapLength(past) + 1
      else GapLength(past)
  }

  /** No gap reaches its limit: 2000 counts after a feed, 0xFFF between the enabling of the
      watchdog and the first feed. */
  ghost predicate GapsAreShort(r: Run) {
    r.After? ==>
      && GapsAreShort(r.past)
      && (r.event == WdCount && End(r.past).m.wd.on ==>
            GapLength(r) < if End(r.past).m.pc.Init? then 0xFFF else 2000)
  }

  /** A count resets exactly when it brings the gap to its limit. */
  lemma CountInGap(w: World)
    requires Devices(w.m, w.h)
    ensures var w' := Step(w, WdCount);
            if w.m.wd.on && w.h.hunger.counts + 1 >= (if w.m.pc.Init? then 0xFFF else 2000)
            then w'.resets == w.resets + 1
            else w'.resets == w.resets
                 && w'.h.hunger.counts == w.h.hunger.counts + if w.m.wd.on then 1 else 0
  {
  }

  lemma MainInGap(w: World)
    ensures Step(w, Main).resets == w.resets
    ensures Step(w, Main).h.hunger.counts
         == if Feeds(w.m.pc) || w.m.pc == Init(WdEnable) then 0 else w.h.hunger.counts
  {
  }

  /** Watchdog safety of a whole run, exactly: it was never reset if and only if every gap
      between feeds was short. */
  lemma {:induction false} NeverResetExactly(r: Run)
    ensures End(r).resets == 0 <==> GapsAreShort(r)
    ensures End(r).resets == 0 ==> GapLength(r) == End(r).h.hunger.counts
  {
    if r.After? {
      NeverResetExactly(r.past);
      AlwaysCoupled(r.past);
      match r.event
      case Main => MainInGap(End(r.past));
      case SysTick =>
      case WdCount => CountInGap(End(r.past));
    }
  }
}
