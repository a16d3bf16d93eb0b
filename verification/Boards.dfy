/** The firmware's functions as methods that change the board's state in place. Interrupts
    and watchdog counts strike between any two of their memory accesses. Each method is
    proved to be a stretch of a run of the machine of module Firmware, so everything
    proved about runs holds of the board. */
module Boards {
  import opened Word32
  import opened Firmware
  import opened Blinker
  import opened BlinkCycles
  import opened Chronicle
  import opened Coupling
  import opened Evidence
  import opened Pacing
  import opened Theorems

  /** `r` is `r0` followed by interrupts and watchdog counts only. */
  ghost predicate Interrupted(r0: Run, r: Run) {
    r == r0 || (r.After? && r.event != Main && Interrupted(r0, r.past))
  }

  lemma {:induction false} TimePasses(r0: Run, r: Run)
    requires Interrupted(r0, r) && End(r).resets == End(r0).resets
    ensures var h, h' := End(r0).h, End(r).h;
            h.now <= h'.now && h' == h.(now := h'.now, hunger := h'.hunger)
  {
    if r != r0 {
      NoResetUndone(r0, r.past);
      TimePasses(r0, r.past);
    }
  }

  lemma {:induction false} NoResetUndone(r0: Run, r: Run)
    requires Interrupted(r0, r)
    ensures End(r0).resets <= End(r).resets
  {
    if r != r0 {
      NoResetUndone(r0, r.past);
    }
  }

  /** Between the records `h0` and `h` a look in progress was finished, and it reported `r`. */
  ghost predicate LookMade(h0: History, h: History, site: Site, r: Word) {
    var l := LookOf(h, site);
    && h.anchor == h0.anchor && h.log == h0.log && h.cur.start == h0.cur.start
    && (site == OnTest ==> h.cur.offLook == h0.cur.offLook)
    && r == l.age && Sampled(h.anchor, l)
    && h.anchor <= h0.cur.call == l.call <= l.first <= l.read <= l.ret <= h.now && h0.now <= h.now
  }

  lemma DecisionIsSampled(r: Run)
    requires End(r).m.pc.Decide?
    ensures var w := End(r);
            var l := LookOf(w.h, w.m.pc.site);
            && w.m.pc.age == l.age && Sampled(w.h.anchor, l)
            && w.h.anchor <= l.call <= l.first <= l.read <= l.ret <= w.h.now
  {
    AlwaysCoupled(r);
  }

  lemma LookIsHonest(a: nat, l: Look, now: nat)
    requires Sampled(a, l) && a <= l.call <= l.first <= l.read <= l.ret <= now
    ensures now - a < MOD ==> l.call - a - 1 <= l.age <= now - a
  {
  }

  /** One poll more in the log, told from the two ends. */
  lemma PollSummary(r0: Run, r: Run)
    requires End(r0).m.pc == Call(OffTest) && End(r).m.pc == LoopFeed
    requires End(r).h.log.Then? && End(r).h.log.past == End(r0).h.log
    ensures var w0, w, p := End(r0), End(r), End(r).h.log.poll;
            && Lawful(LastEnd(w0.h.log), p) && SampledPoll(w0.h.anchor, p)
            && w.m.gpio == w0.m.gpio + Action(p)
            && w.m.ledRunTime == if p.Off? then p.anchor % MOD else w0.m.ledRunTime
  {
    AlwaysCoupled(r0);
    AlwaysCoupled(r);
  }

  /** While interrupts are masked nothing but the pending flag changes. */
  lemma MaskedBoot(r: Run)
    requires End(r).m.pc.Init? && 3 <= Rank(End(r).m.pc.step) <= 8
    ensures var m := End(r).m;
            && m.jiffies == 0 && !m.wd.on && m.irq.masked
            && m.irq.ticking == (Rank(m.pc.step) >= 7)
            && (m.irq.pending ==> m.irq.ticking)
  {
    AlwaysCoupled(r);
  }

  lemma FedDevices(r: Run)
    requires End(r).m.pc == Init(BootFeed) || End(r).m.pc == LoopFeed
    ensures End(r).m.wd.on && End(r).m.wd.reload == WD_RELOAD
  {
    AlwaysCoupled(r);
  }

  lemma BootedDevices(r: Run)
    requires End(r).m.pc == LoopFeed && End(r).h.log.Booted?
    ensures End(r).m.irq == Irq(true, false, false)
    ensures End(r).m.gpio == [] && End(r).m.ledRunTime == 0
  {
    AlwaysCoupled(r);
  }

  function Polls(log: Log): nat {
    match log
    case Booted(_) => 0
    case Then(past, _) => Polls(past) + 1
  }

  class Board {
    var jiffies: Word
    var ledRunTime: Word
    var gpio: seq<PinWrite>
    var irq: Irq
    var wd: Watchdog
    ghost var pc: Pc
    ghost var run: Run

    ghost function Snapshot(at: Pc): Machine
      reads this
    {
      Machine(at, jiffies, ledRunTime, gpio, irq, wd)
    }

    /** The board is where its run, free of resets, has led the machine. */
    ghost predicate Valid()
      reads this
    {
      End(run).m == Snapshot(pc) && End(run).resets == 0
    }

    ghost function Record(): History
      reads this
    {
      End(run).h
    }

    constructor ()
      ensures Valid() && pc == Init(RccConfig) && run == PowerOn
    {
      jiffies, ledRunTime, gpio := 0, 0, [];
      irq, wd := POWER_ON.irq, POWER_ON.wd;
      pc, run := Init(RccConfig), PowerOn;
    }

    /** The statement just executed was the machine's next step. */
    ghost method Ran(next: Pc)
      requires Snapshot(next) == Exec(End(run).m) && End(run).resets == 0
      modifies this`pc, this`run
      ensures Valid() && pc == next && run == After(old(run), Main)
      ensures Record() == Observe(End(old(run)).m, old(Record()), Main)
    {
      pc, run := next, After(run, Main);
    }

    // ---- the two clocks ----

    method SysTickHandler()
      modifies this`jiffies
      ensures jiffies == Handler(old(jiffies))
    {
      jiffies := Add(jiffies, 1);
    }

    method SysTickExpires()
      requires Valid()
      modifies this
      ensures Valid() && pc == old(pc) && run == After(old(run), SysTick)
      ensures jiffies == if irq.ticking && !irq.masked then Handler(old(jiffies)) else old(jiffies)
      ensures irq == old(irq).(pending := old(irq.pending) || (irq.ticking && irq.masked))
      ensures ledRunTime == old(ledRunTime) && gpio == old(gpio) && wd == old(wd)
    {
      if irq.ticking {
        if irq.masked {
          irq := irq.(pending := true);
        } else {
          SysTickHandler();
        }
      }
      run := After(run, SysTick);
    }

    method WatchdogCounts()
      requires Valid() && !Starving(wd)
      modifies this`wd, this`run
      ensures Valid() && run == After(old(run), WdCount)
    {
      if wd.on {
        wd := wd.(count := wd.count - 1);
      }
      run := After(run, WdCount);
    }

    /** Any number of interrupts and watchdog counts, short of a reset. */
    method Interrupts()
      requires Valid()
      modifies this
      ensures Valid() && pc == old(pc) && Interrupted(old(run), run)
      ensures ledRunTime == old(ledRunTime) && gpio == old(gpio)
      ensures irq == old(irq).(pending := irq.pending) && wd == old(wd).(count := wd.count)
      ensures old(Record().now) <= Record().now
      ensures Record() == old(Record()).(now := Record().now, hunger := Record().hunger)
    {
      var n: int := *;
      while n > 0
        invariant Valid() && pc == old(pc) && Interrupted(old(run), run)
        invariant ledRunTime == old(ledRunTime) && gpio == old(gpio)
        invariant irq == old(irq).(pending := irq.pending) && wd == old(wd).(count := wd.count)
      {
        n := n - 1;
        var tick: bool := *;
        if tick {
          SysTickExpires();
        } else if !Starving(wd) {
          WatchdogCounts();
        }
      }
      TimePasses(old(run), run);
    }

    // ---- asyn.c ----

    method JiffiesGet() returns (r: Word)
      requires Valid()
      ensures r == jiffies == Record().now % MOD
    {
      AlwaysCoupled(run);
      r := jiffies;
    }

    /** The wrap branch of jiffies_before. */
    method WrapBranch(bef: Word, ghost site: Site) returns (r: Word)
      requires Valid() && pc == Reread(site, bef)
      modifies this
      ensures Valid() && pc == Decide(site, r) && gpio == old(gpio) && ledRunTime == old(ledRunTime)
      ensures LookMade(old(Record()), Record(), site, r)
    {
      Interrupts();
      var tmp := Add(jiffies, Complement(bef));  // as in the source, not used
      Ran(RereadReturn(site, bef));
      Interrupts();
      r := Add(jiffies, Complement(bef));
      Ran(Decide(site, r));
      DecisionIsSampled(run);
    }

    /** Whatever interrupts strike inside the call, the result is the age of a look made
        during it. */
    method JiffiesBefore(bef: Word, ghost site: Site) returns (r: Word)
      requires Valid() && pc == Read(site, bef) && bef == ledRunTime
      requires Record().cur.call == Record().now
      modifies this
      ensures Valid() && pc == Decide(site, r) && gpio == old(gpio) && ledRunTime == bef
      ensures LookMade(old(Record()), Record(), site, r) && LookOf(Record(), site).call == old(Record().now)
      ensures Record().now - Record().anchor < MOD ==>
                old(Record().now) - Record().anchor - 1 <= r <= Record().now - Record().anchor
    {
      Interrupts();
      var tmp := jiffies;
      Ran(Compare(site, bef, tmp));
      if tmp >= bef {
        r := tmp - bef;
        Ran(Decide(site, r));
        DecisionIsSampled(run);
      } else {
        Ran(Reread(site, bef));
        r := WrapBranch(bef, site);
      }
      LookIsHonest(Record().anchor, LookOf(Record(), site), Record().now);
    }

    // ---- led.c ----

    /** Both branches that end a poll leave the board and its record like this. */
    twostate predicate PollMade()
      reads this
    {
      var log := Record().log;
      && Valid() && pc == LoopFeed
      && log.Then? && log.past == old(Record().log)
      && LastEnd(log.past) <= log.poll.start && log.poll.end == Record().now
    }

    method SwitchOff()
      requires Valid() && pc == LedOff
      modifies this
      ensures PollMade() && gpio == old(gpio) + [SetBits]
      ensures Record().log.poll.Off? && Record().log.poll.start == old(Record().cur.start)
    {
      Interrupts();
      gpio := gpio + [SetBits];
      Ran(AnchorRead);
      Interrupts();
      var now := JiffiesGet();
      Ran(AnchorWrite(now));
      Interrupts();
      ledRunTime := now;
      Ran(LoopFeed);
      AlwaysCoupled(run);
    }

    method SwitchOn()
      requires Valid() && pc == LedOn
      modifies this
      ensures PollMade() && gpio == old(gpio) + [ResetBits]
      ensures Record().log.poll.On? && Record().log.poll.start == old(Record().cur.start)
    {
      Interrupts();
      gpio := gpio + [ResetBits];
      Ran(LoopFeed);
      AlwaysCoupled(run);
    }

    /** The call of jiffies_before at the given site, its argument loaded first. */
    method Ask(ghost site: Site) returns (r: Word)
      requires Valid() && pc == Call(site)
      modifies this
      ensures Valid() && pc == Decide(site, r) && gpio == old(gpio) && ledRunTime == old(ledRunTime)
      ensures Record().log == old(Record().log)
      ensures old(Record().now) <= LookOf(Record(), site).call
    {
      Interrupts();
      var bef := ledRunTime;
      Ran(Read(site, bef));
      r := JiffiesBefore(bef, site);
    }

    /** The second test of led_run_proc. */
    method TestForOn()
      requires Valid() && pc == Call(OnTest)
      modifies this
      ensures PollMade()
    {
      var age := Ask(OnTest);
      Interrupts();
      if age >= 50 {
        Ran(LedOn);
        SwitchOn();
      } else {
        AlwaysCoupled(run);
        Ran(LoopFeed);
      }
    }

    /** led_run_proc: one lawful poll joins the record; its action, decided by the ages it
        sampled, is what happens to the pin, and led_run_time moves only with LED_OFF. */
    method LedRunProc()
      requires Valid() && pc == Call(OffTest)
      modifies this
      ensures Valid() && pc == LoopFeed
      ensures Record().log.Then? && Record().log.past == old(Record().log)
      ensures var p, a := Record().log.poll, old(Record().anchor);
              && Lawful(LastEnd(old(Record().log)), p) && SampledPoll(a, p)
              && p.end == Record().now
              && gpio == old(gpio) + (match p
                                      case Off(_, _, _, _, _) => [SetBits]
                                      case On(_, _, _, _) => [ResetBits]
                                      case Idle(_, _, _, _) => [])
              && ledRunTime == if p.Off? then p.anchor % MOD else old(ledRunTime)
    {
      ghost var run0 := run;
      var age := Ask(OffTest);
      Interrupts();
      if age >= 100 {
        Ran(LedOff);
        SwitchOff();
      } else {
        Ran(Call(OnTest));
        TestForOn();
      }
      PollSummary(run0, run);
    }

    // ---- fun.c ----

    method DisableIrq()
      requires Valid() && pc == Init(MaskIrq)
      modifies this`irq, this`pc, this`run
      ensures Valid() && pc == Init(WdUnlock) && run == After(old(run), Main)
      ensures irq == old(irq).(masked := true)
    {
      irq := irq.(masked := true);
      Ran(Init(WdUnlock));
    }

    /** A tick that expired under the mask is handled now, and only one: the counter, zero
        until here, says so. */
    method EnableIrq()
      requires Valid() && pc == Init(UnmaskIrq)
      modifies this`irq, this`jiffies, this`pc, this`run
      ensures Valid() && pc == Init(WdEnable) && run == After(old(run), Main)
      ensures irq == Irq(true, false, false)
      ensures jiffies == if old(irq.pending) then 1 else 0
      ensures jiffies == Due(run)
    {
      MaskedBoot(run);
      TimeIsTold(run);
      var pending := irq.pending;
      irq := irq.(masked := false, pending := false);
      if pending {
        SysTickHandler();
      }
      Ran(Init(WdEnable));
    }

    method IwdgConfig()
      requires Valid() && pc == Init(WdUnlock)
      modifies this
      ensures Valid() && pc == Init(ZeroJiffies)
      ensures wd == Watchdog(false, true, 2000, wd.count)
      ensures ledRunTime == old(ledRunTime) && gpio == old(gpio)
    {
      Interrupts();
      wd := wd.(access := true);
      Ran(Init(WdSetReload));
      Interrupts();
      if wd.access {
        wd := wd.(reload := 2000);
      }
      Ran(Init(ZeroJiffies));
      MaskedBoot(run);
    }

    method WatchdogEnable()
      requires Valid() && pc == Init(WdEnable)
      modifies this`wd, this`pc, this`run
      ensures Valid() && pc == Init(BootFeed) && run == After(old(run), Main)
      ensures wd == Watchdog(true, false, old(wd.reload), 0xFFF)
    {
      wd := wd.(on := true, access := false, count := WD_RESET_VALUE);
      Ran(Init(BootFeed));
    }

    method WatchdogFeed()
      requires Valid() && (pc == Init(BootFeed) || pc == LoopFeed)
      modifies this`wd, this`pc, this`run
      ensures Valid() && pc == (if old(pc).Init? then LoopFeed else Call(OffTest))
      ensures run == After(old(run), Main)
      ensures wd == Watchdog(true, false, 2000, 2000)
      ensures Record().log == if old(pc).Init? then Booted(Record().now) else old(Record().log)
    {
      FedDevices(run);
      wd := wd.(access := false, count := wd.reload);
      Ran(if pc.Init? then LoopFeed else Call(OffTest));
    }

    // ---- asyn.c, led.c: initialisation ----

    method SysTickInit()
      requires Valid() && pc == Init(ZeroJiffies)
      modifies this
      ensures Valid() && pc == Init(InitStep.LedInit)
      ensures jiffies == 0 && irq == Irq(true, true, false)
      ensures wd == old(wd).(count := wd.count)
      ensures ledRunTime == old(ledRunTime) && gpio == old(gpio)
    {
      Interrupts();
      jiffies := 0;
      Ran(Init(StartSysTick));
      Interrupts();
      MaskedBoot(run);
      irq := irq.(ticking := true);
      Ran(Init(InitStep.LedInit));
    }

    /** led_init only configures the pin. */
    method LedInit()
      requires Valid() && pc == Init(InitStep.LedInit)
      modifies this
      ensures Valid() && pc == Init(UnmaskIrq)
      ensures irq == old(irq).(pending := irq.pending) && wd == old(wd).(count := wd.count)
      ensures ledRunTime == old(ledRunTime) && gpio == old(gpio)
    {
      Interrupts();
      Ran(Init(UnmaskIrq));
    }

    // ---- sys_init.c and main.c ----

    /** RCC_config and NVIC_config: no effect on the modelled state. */
    method ClocksAndPriorities()
      requires Valid() && pc == Init(RccConfig)
      modifies this`pc, this`run
      ensures Valid() && pc == Init(MaskIrq) && run == After(After(old(run), Main), Main)
    {
      Ran(Init(NvicConfig));
      Ran(Init(MaskIrq));
    }

    /** The part of system_init that runs with interrupts masked. */
    method ConfigureMasked()
      requires Valid() && pc == Init(MaskIrq)
      modifies this
      ensures Valid() && pc == Init(UnmaskIrq)
      ensures jiffies == 0 && irq == Irq(true, true, irq.pending)
      ensures wd == Watchdog(false, true, 2000, wd.count)
    {
      Interrupts();
      DisableIrq();
      IwdgConfig();
      SysTickInit();
      LedInit();
      MaskedBoot(run);
    }

    method SystemInit()
      requires Valid() && pc == Init(RccConfig)
      modifies this
      ensures Valid() && pc == LoopFeed
      ensures Record().log == Booted(Record().now) && gpio == [] && ledRunTime == 0
      ensures irq == Irq(true, false, false) && wd == Watchdog(true, false, 2000, 2000)
    {
      ClocksAndPriorities();
      ConfigureMasked();
      Interrupts();
      EnableIrq();
      Interrupts();
      WatchdogEnable();
      Interrupts();
      WatchdogFeed();
      BootedDevices(run);
    }

    /** main, for n passes of its endless loop: n lawful polls, no LED_OFF sooner than 100
        ticks after the one before, and at a bounded pace all that is proved of paced runs. */
    method RunFor(n: nat)
      requires Valid() && pc == Init(RccConfig)
      modifies this
      ensures Valid() && pc == LoopFeed
      ensures Polls(Record().log) == n && Observed(Record().log)
      ensures gpio == Commands(Record().log) == WritesTold(run)
      ensures multiset(gpio)[SetBits] == Cycles(Record().log)
      ensures Record().log == LogTold(run)
      ensures ledRunTime == Anchor(Record().log) % MOD
      ensures 100 * Cycles(Record().log) <= Record().now
      ensures forall b: nat, h: nat :: PacedRun(run, b, h) && b + h < MOD && 100 + h < MOD ==>
                                         Ideal(Record().log) && CycleLengths(Record().log, b, h)
      ensures forall b: nat, h: nat :: PacedRun(run, b, h) && h <= 50 && b + h < 100 ==>
                                         Phases(gpio)
    {
      SystemInit();
      for i := 0 to n
        invariant Valid() && pc == LoopFeed && Polls(Record().log) == i
      {
        Interrupts();
        WatchdogFeed();
        LedRunProc();
      }
      AlwaysCoupled(run);
      NoEarlySwitching(run);
      LogIsTold(run);
      WritesAreTold(run);
      CommandsCount(Record().log);
      forall b: nat, h: nat | PacedRun(run, b, h) && b + h < MOD && 100 + h < MOD
        ensures Ideal(Record().log) && CycleLengths(Record().log, b, h)
      {
        RefinesUnboundedBlinker(run, b, h);
        CycleLengthsOfRun(run, b, h);
      }
      forall b: nat, h: nat | PacedRun(run, b, h) && h <= 50 && b + h < 100
        ensures Phases(gpio)
      {
        PinAlternates(run, b, h);
      }
    }
  }
}
