/** The record checked against the run: every part of it is told again from the events and
    the steps they found the main thread at, and shown to be the same. */
module Evidence {
  import opened Word32
  import opened Firmware
  import opened Blinker
  import opened Chronicle
  import opened Coupling

  // ---- resets ----

  /** The events since the last reset. */
  function Life(r: Run): Run {
    match r
    case PowerOn => PowerOn
    case After(past, e) =>
      if End(r).resets > End(past).resets then PowerOn else After(Life(past), e)
  }

  /** What follows a watchdog reset is a run from power-on: system_init starts again, with
      everything off. */
  lemma {:induction false} ResetStartsOver(r: Run)
    ensures End(r).m == End(Life(r)).m && End(r).h == End(Life(r)).h
    ensures End(Life(r)).resets == 0
  {
    if r.After? {
      ResetStartsOver(r.past);
    }
  }

  // ---- the true time ----

  /** SysTick_init has started the timer and interrupts are still masked. */
  predicate TicksMasked(pc: Pc) {
    pc == Init(LedInit) || pc == Init(UnmaskIrq)
  }

  /** Interrupts are unmasked. */
  predicate TicksHandled(pc: Pc) {
    pc == Init(WdEnable) || pc == Init(BootFeed) || !pc.Init?
  }

  /** The handler runs due in a run without resets: those of all expiries, where any number of
      them under the mask are due only one. */
  function Due(r: Run): nat {
    match r
    case PowerOn => 0
    case After(past, e) =>
      var pc := End(past).m.pc;
      if e != SysTick then Due(past)
      else if TicksMasked(pc) then 1
      else if TicksHandled(pc) then Due(past) + 1
      else Due(past)
  }

  ghost predicate TimeTold(w: World, due: nat) {
    && (TicksHandled(w.m.pc) ==> w.h.now == due)
    && (TicksMasked(w.m.pc) ==> due == if w.m.irq.pending then 1 else 0)
    && (!TicksHandled(w.m.pc) && !TicksMasked(w.m.pc) ==> due == 0)
  }

  lemma TimeToldMain(w: World, due: nat)
    requires Devices(w.m, w.h) && TimeTold(w, due)
    ensures TimeTold(Step(w, Main), due)
  {
  }

  lemma TimeToldTick(w: World, due: nat)
    requires Devices(w.m, w.h) && TimeTold(w, due)
    ensures TimeTold(Step(w, SysTick),
                     if TicksMasked(w.m.pc) then 1 else if TicksHandled(w.m.pc) then due + 1 else due)
  {
  }

  /** No tick is lost and none is invented: an expiry under the mask is kept, later ones under
      the mask join it, and every other expiry runs the handler. */
  lemma {:induction false} TimeIsTold(r: Run)
    requires End(r).resets == 0
    ensures TimeTold(End(r), Due(r))
  {
    if r.After? {
      AlwaysCoupled(r.past);
      TimeIsTold(r.past);
      match r.event
      case Main => TimeToldMain(End(r.past), Due(r.past));
      case SysTick => TimeToldTick(End(r.past), Due(r.past));
      case WdCount =>
    }
  }

  // ---- the two clocks against each other ----

  /** Ticks since the watchdog was enabled or last counted. */
  function TicksSinceCount(r: Run): nat {
    match r
    case PowerOn => 0
    case After(past, e) =>
      if e == WdCount || (e == Main && End(past).m.pc == Init(WdEnable)) then 0
      else if e == SysTick then TicksSinceCount(past) + 1
      else TicksSinceCount(past)
  }

  /** Counts of the running watchdog since the last tick. */
  function CountsSinceTick(r: Run): nat {
    match r
    case PowerOn => 0
    case After(past, e) =>
      if e == SysTick then 0
      else if e == WdCount && End(past).m.wd.on then CountsSinceTick(past) + 1
      else CountsSinceTick(past)
  }

  ghost predicate RatesTold(w: World, ticks: nat, counts: nat) {
    && (w.m.wd.on ==> w.h.hunger.sinceCount == ticks)
    && w.h.hunger.sinceTick == counts
    && (!w.m.wd.on ==> counts == 0)
  }

  lemma RatesToldMain(w: World, ticks: nat, counts: nat)
    requires Devices(w.m, w.h) && RatesTold(w, ticks, counts)
    ensures RatesTold(Step(w, Main), if w.m.pc == Init(WdEnable) then 0 else ticks, counts)
  {
  }

  lemma RatesToldClock(w: World, e: Event, ticks: nat, counts: nat)
    requires Devices(w.m, w.h) && RatesTold(w, ticks, counts)
    requires e != Main && Step(w, e).resets == w.resets
    ensures RatesTold(Step(w, e), if e == WdCount then 0 else ticks + 1,
                      if e == SysTick then 0 else if w.m.wd.on then counts + 1 else counts)
  {
  }

  lemma {:induction false} RatesAreTold(r: Run)
    requires End(r).resets == 0
    ensures RatesTold(End(r), TicksSinceCount(r), CountsSinceTick(r))
  {
    if r.After? {
      AlwaysCoupled(r.past);
      RatesAreTold(r.past);
      if r.event == Main {
        RatesToldMain(End(r.past), TicksSinceCount(r.past), CountsSinceTick(r.past));
      } else {
        RatesToldClock(End(r.past), r.event, TicksSinceCount(r.past), CountsSinceTick(r.past));
      }
    }
  }

  // ---- the pin ----

  /** The LED commands the main thread has executed. */
  function WritesTold(r: Run): seq<PinWrite> {
    match r
    case PowerOn => []
    case After(past, e) =>
      var pc := End(past).m.pc;
      if e == Main && pc.LedOff? then WritesTold(past) + [SetBits]
      else if e == Main && pc.LedOn? then WritesTold(past) + [ResetBits]
      else WritesTold(past)
  }

  lemma {:induction false} WritesAreTold(r: Run)
    requires End(r).resets == 0
    ensures End(r).m.gpio == WritesTold(r)
  {
    if r.After? {
      WritesAreTold(r.past);
    }
  }

  // ---- the instants ----

  /** What the record remembers the time of. */
  datatype Moment = EnterPoll | CallLook | FirstRead | WriteOff | FetchAnchor | FeedDog

  predicate Happens(mo: Moment, pc: Pc) {
    match mo
    case EnterPoll => pc == Call(OffTest)
    case CallLook => pc.Call?
    case FirstRead => pc.Read?
    case WriteOff => pc.LedOff?
    case FetchAnchor => pc.AnchorRead?
    case FeedDog => pc == Init(BootFeed) || pc.LoopFeed?
  }

  /** When the main thread last took the step. */
  function Last(r: Run, mo: Moment): nat {
    match r
    case PowerOn => 0
    case After(past, e) =>
      if e == Main && Happens(mo, End(past).m.pc) then Due(past) else Last(past, mo)
  }

  ghost function Remembered(h: History, mo: Moment): nat {
    match mo
    case EnterPoll => h.cur.start
    case CallLook => h.cur.call
    case FirstRead => h.cur.first
    case WriteOff => h.cur.offAt
    case FetchAnchor => h.cur.anchorAt
    case FeedDog => h.hunger.fed
  }

  lemma MomentStep(w: World, e: Event, mo: Moment)
    requires Step(w, e).resets == w.resets
    ensures Remembered(Step(w, e).h, mo)
         == if e == Main && Happens(mo, w.m.pc) then w.h.now else Remembered(w.h, mo)
  {
  }

  lemma {:induction false} InstantsAreTold(r: Run, mo: Moment)
    requires End(r).resets == 0
    ensures Remembered(End(r).h, mo) == Last(r, mo)
  {
    if r.After? {
      InstantsAreTold(r.past, mo);
      TimeIsTold(r.past);
      MomentStep(End(r.past), r.event, mo);
    }
  }

  // ---- the looks ----

  /** The main thread leaves jiffies_before at this step. */
  predicate Returns(m: Machine, site: Site) {
    (m.pc.Compare? || m.pc.RereadReturn?) && m.pc.site == site && Exec(m).pc.Decide?
  }

  /** The last look returned to the site. */
  function LookTold(r: Run, site: Site): Look {
    match r
    case PowerOn => NO_LOOK
    case After(past, e) =>
      var m := End(past).m;
      if e == Main && Returns(m, site)
      then Look(Last(past, CallLook), Last(past, FirstRead),
                if m.pc.Compare? then Last(past, FirstRead) else Due(past),
                Due(past), Exec(m).pc.age)
      else LookTold(past, site)
  }

  lemma LookStep(w: World, e: Event, site: Site)
    requires Step(w, e).resets == w.resets
    ensures LookOf(Step(w, e).h, site)
         == if e == Main && Returns(w.m, site)
            then Look(w.h.cur.call, w.h.cur.first, if w.m.pc.Compare? then w.h.cur.first else w.h.now,
                      w.h.now, Exec(w.m).pc.age)
            else LookOf(w.h, site)
  {
  }

  lemma {:induction false} LooksAreTold(r: Run, site: Site)
    requires End(r).resets == 0
    ensures LookOf(End(r).h, site) == LookTold(r, site)
  {
    if r.After? {
      LooksAreTold(r.past, site);
      TimeIsTold(r.past);
      InstantsAreTold(r.past, CallLook);
      InstantsAreTold(r.past, FirstRead);
      LookStep(End(r.past), r.event, site);
    }
  }

  // ---- the log ----

  /** The finished polls: LED_OFF with the instants of its write and of its new anchor, LED_ON
      with the instant of its write, or neither. */
  function LogTold(r: Run): Log {
    match r
    case PowerOn => Booted(0)
    case After(past, e) =>
      var pc, start, look := End(past).m.pc, Last(past, EnterPoll), LookTold(past, OffTest);
      if e != Main then LogTold(past)
      else if pc == Init(BootFeed) then Booted(Due(past))
      else if pc.AnchorWrite? then
        Then(LogTold(past), Off(start, look, Last(past, WriteOff), Last(past, FetchAnchor), Due(past)))
      else if pc.LedOn? then
        Then(LogTold(past), On(start, look, LookTold(past, OnTest), Due(past)))
      else if pc.Decide? && End(r).m.pc.LoopFeed? then
        Then(LogTold(past), Idle(start, look, LookTold(past, OnTest), Due(past)))
      else LogTold(past)
  }

  /** The log after a step, from the record before it. */
  ghost function LogNext(w: World, e: Event): Log {
    var log, c, now := w.h.log, w.h.cur, w.h.now;
    if e != Main then log
    else if w.m.pc == Init(BootFeed) then Booted(now)
    else if w.m.pc.AnchorWrite? then Then(log, Off(c.start, c.offLook, c.offAt, c.anchorAt, now))
    else if w.m.pc.LedOn? then Then(log, On(c.start, c.offLook, c.onLook, now))
    else if w.m.pc.Decide? && Exec(w.m).pc.LoopFeed? then Then(log, Idle(c.start, c.offLook, c.onLook, now))
    else log
  }

  lemma LogStep(w: World, e: Event)
    requires Step(w, e).resets == w.resets
    ensures Step(w, e).h.log == LogNext(w, e)
  {
  }

  lemma {:induction false} LogIsTold(r: Run)
    requires End(r).resets == 0
    ensures End(r).h.log == LogTold(r)
  {
    if r.After? {
      LogIsTold(r.past);
      TimeIsTold(r.past);
      InstantsAreTold(r.past, EnterPoll);
      InstantsAreTold(r.past, WriteOff);
      InstantsAreTold(r.past, FetchAnchor);
      LooksAreTold(r.past, OffTest);
      LooksAreTold(r.past, OnTest);
      LogStep(End(r.past), r.event);
    }
  }

  /** The whole record of any run, resets included, told from the events since the last reset:
      the counter counts the ticks, the pin shows the commands, the log holds the polls, and
      the rates and the last feed are what they are called. */
  lemma RecordIsTold(r: Run)
    ensures var w, life := End(r), Life(r);
            && (TicksHandled(w.m.pc) ==> w.h.now == Due(life) && w.m.jiffies == Due(life) % MOD)
            && w.m.gpio == WritesTold(life)
            && w.h.log == LogTold(life)
            && w.m.ledRunTime == Anchor(LogTold(life)) % MOD
            && w.h.hunger.fed == Last(life, FeedDog)
            && (w.m.wd.on ==> w.h.hunger.sinceCount == TicksSinceCount(life))
            && w.h.hunger.sinceTick == CountsSinceTick(life)
  {
    ResetStartsOver(r);
    var life := Life(r);
    AlwaysCoupled(life);
    TimeIsTold(life);
    WritesAreTold(life);
    LogIsTold(life);
    InstantsAreTold(life, FeedDog);
    RatesAreTold(life);
  }
}
