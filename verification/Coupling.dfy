/** The invariant that ties the 32-bit machine to the true-time record, at every step of
    every run: no assumption about the schedule is made here. */
module Coupling {
  import opened Word32
  import opened Firmware
  import opened Blinker
  import opened Chronicle

  function Rank(step: InitStep): nat {
    match step
    case RccConfig => 0
    case NvicConfig => 1
    case MaskIrq => 2
    case WdUnlock => 3
    case WdSetReload => 4
    case ZeroJiffies => 5
    case StartSysTick => 6
    case LedInit => 7
    case UnmaskIrq => 8
    case WdEnable => 9
    case BootFeed => 10
  }

  ghost predicate Clocks(m: Machine, h: History) {
    m.jiffies == h.now % MOD && m.ledRunTime == h.anchor % MOD
  }

  /** The pin write of a poll that has switched the LED off and not yet returned. */
  function UnfinishedWrites(pc: Pc): seq<PinWrite> {
    if pc.AnchorRead? || pc.AnchorWrite? then [SetBits] else []
  }

  ghost predicate Books(m: Machine, h: History) {
    && h.anchor == Anchor(h.log) <= LastEnd(h.log) <= h.now
    && Observed(h.log)
    && m.gpio == Commands(h.log) + UnfinishedWrites(m.pc)
  }

  /** Devices: interrupts are masked from MaskIrq to UnmaskIrq and no tick is handled
      before they are unmasked; the watchdog runs from WdEnable on and its counter is what
      the last reload left of it. */
  ghost predicate Devices(m: Machine, h: History) {
    var rank := if m.pc.Init? then Rank(m.pc.step) else 11;
    && m.irq.masked == (3 <= rank <= 8)
    && m.irq.ticking == (rank >= 7)
    && (m.irq.pending ==> m.irq.masked && m.irq.ticking)
    && m.wd.on == (rank >= 10)
    && (rank == 4 ==> m.wd.access)
    && (rank >= 5 ==> m.wd.reload == WD_RELOAD)
    && (rank <= 8 ==> h.now == 0 && h.hunger.sinceCount == 0)
    && (rank <= 10 ==> h.log == Booted(0))
    && (m.wd.on ==>
          m.wd.count == (if m.pc.Init? then WD_RESET_VALUE else WD_RELOAD) - h.hunger.counts >= 1)
  }

  ghost predicate LookDone(h: History, l: Look) {
    && Sampled(h.anchor, l)
    && l.call <= l.first <= l.read <= l.ret <= h.now
  }

  ghost predicate OffLookDone(h: History) {
    LastEnd(h.log) <= h.cur.start <= h.cur.offLook.call && LookDone(h, h.cur.offLook)
  }

  ghost predicate OffTestPassed(h: History) {
    OffLookDone(h) && h.cur.offLook.age >= OFF_AGE
  }

  ghost predicate OffTestFailed(h: History) {
    OffLookDone(h) && h.cur.offLook.age < OFF_AGE
  }

  ghost predicate OnLookDone(h: History) {
    && OffTestFailed(h)
    && h.cur.offLook.ret <= h.cur.onLook.call
    && LookDone(h, h.cur.onLook)
  }

  /** A look is in progress ... */
  ghost predicate Asking(m: Machine, h: History, site: Site, bef: Word) {
    && bef == m.ledRunTime
    && h.cur.call <= h.now
    && if site == OffTest then LastEnd(h.log) <= h.cur.start <= h.cur.call
       else OffTestFailed(h) && h.cur.offLook.ret <= h.cur.call
  }

  /** ... and has made its first read. */
  ghost predicate HasRead(m: Machine, h: History, site: Site, bef: Word) {
    Asking(m, h, site, bef) && h.cur.call <= h.cur.first <= h.now
  }

  /** What the record says about the poll in progress. */
  ghost predicate InFlight(m: Machine, h: History) {
    match m.pc
    case Init(_) => true
    case LoopFeed => true
    case Call(site) => site == OnTest ==> OffTestFailed(h)
    case Read(site, bef) => Asking(m, h, site, bef)
    case Compare(site, bef, tmp) => HasRead(m, h, site, bef) && tmp == h.cur.first % MOD
    case Reread(site, bef) => HasRead(m, h, site, bef) && h.cur.first % MOD < bef
    case RereadReturn(site, bef) => HasRead(m, h, site, bef) && h.cur.first % MOD < bef
    case Decide(site, age) =>
      if site == OffTest then OffLookDone(h) && age == h.cur.offLook.age
      else OnLookDone(h) && age == h.cur.onLook.age
    case LedOff => OffTestPassed(h)
    case AnchorRead => OffTestPassed(h) && h.cur.offLook.ret <= h.cur.offAt <= h.now
    case AnchorWrite(value) =>
      && OffTestPassed(h)
      && h.cur.offLook.ret <= h.cur.offAt <= h.cur.anchorAt <= h.now
      && value == h.cur.anchorAt % MOD
    case LedOn => OnLookDone(h) && h.cur.onLook.age >= ON_AGE
  }

  ghost predicate Coupled(w: World) {
    Clocks(w.m, w.h) && Books(w.m, w.h) && Devices(w.m, w.h) && InFlight(w.m, w.h)
  }

  // ---- 32-bit arithmetic against true time ----

  lemma LapsDropOut(n: int, laps: int)
    ensures (n + laps * MOD) % MOD == n % MOD
  {
  }

  /** The wrap branch's sum, in terms of true times. */
  lemma WrapBranchSum(now: nat, a: nat)
    requires a <= now
    ensures Add(now % MOD, Complement(a % MOD)) == (now - a - 1) % MOD
  {
    LapsDropOut(now % MOD + Complement(a % MOD), now / MOD - a / MOD - 1);
  }

  /** The other branch's difference. */
  lemma PlainDifference(now: nat, a: nat)
    requires a <= now && a % MOD <= now % MOD
    ensures now % MOD - a % MOD == (now - a) % MOD
  {
    LapsDropOut(now % MOD - a % MOD, now / MOD - a / MOD);
  }

  lemma HandlerCounts(now: nat)
    ensures Handler(now % MOD) == (now + 1) % MOD
  {
  }

  // ---- steps of the main thread ----

  lemma CoupledInit(m: Machine, h: History)
    requires m.pc.Init? && Coupled(World(m, h, 0))
    ensures Coupled(World(ExecInit(m, m.pc.step), ObserveInit(m, h, m.pc.step), 0))
  {
    HandlerCounts(h.now);
  }

  lemma ClocksLoop(m: Machine, h: History)
    requires !m.pc.Init? && Clocks(m, h) && InFlight(m, h)
    ensures Clocks(ExecLoop(m), ObserveLoop(m, h))
  {
  }

  lemma BooksLoop(m: Machine, h: History)
    requires !m.pc.Init? && Books(m, h) && InFlight(m, h)
    ensures Books(ExecLoop(m), ObserveLoop(m, h))
  {
  }

  lemma DevicesLoop(m: Machine, h: History)
    requires !m.pc.Init? && Devices(m, h)
    ensures Devices(ExecLoop(m), ObserveLoop(m, h))
  {
  }

  lemma InFlightLook(m: Machine, h: History)
    requires Looking(m.pc) && Clocks(m, h) && InFlight(m, h)
    requires h.anchor <= LastEnd(h.log) <= h.now
    ensures InFlight(ExecLoop(m), ObserveLoop(m, h))
  {
    match m.pc
    case Compare(_, bef, tmp) =>
      if tmp >= bef {
        PlainDifference(h.cur.first, h.anchor);
      }
    case RereadReturn(_, _) =>
      WrapBranchSum(h.now, h.anchor);
    case _ =>
  }

  lemma InFlightPoll(m: Machine, h: History)
    requires !m.pc.Init? && !Looking(m.pc) && Clocks(m, h) && InFlight(m, h)
    ensures InFlight(ExecLoop(m), ObserveLoop(m, h))
  {
  }

  lemma CoupledMain(w: World)
    requires Coupled(w)
    ensures Coupled(Step(w, Main))
  {
    if w.m.pc.Init? {
      CoupledInit(w.m, w.h);
    } else {
      ClocksLoop(w.m, w.h);
      BooksLoop(w.m, w.h);
      DevicesLoop(w.m, w.h);
      if Looking(w.m.pc) {
        InFlightLook(w.m, w.h);
      } else {
        InFlightPoll(w.m, w.h);
      }
    }
  }

  // ---- the two clocks ----

  /** They only move the true time. */
  lemma InFlightLater(m: Machine, h: History, m': Machine, h': History)
    requires InFlight(m, h)
    requires m'.pc == m.pc && m'.ledRunTime == m.ledRunTime
    requires h' == h.(now := h'.now, hunger := h'.hunger) && h.now <= h'.now
    ensures InFlight(m', h')
  {
  }

  lemma CoupledTick(w: World)
    requires Coupled(w)
    ensures Coupled(Step(w, SysTick))
  {
    HandlerCounts(w.h.now);
    var w' := Step(w, SysTick);
    InFlightLater(w.m, w.h, w'.m, w'.h);
  }

  lemma CoupledWdCount(w: World)
    requires Coupled(w)
    ensures Coupled(Step(w, WdCount))
  {
    if !Starving(w.m.wd) {
      var w' := Step(w, WdCount);
      InFlightLater(w.m, w.h, w'.m, w'.h);
    }
  }

  lemma {:induction false} AlwaysCoupled(r: Run)
    ensures Coupled(End(r))
  {
    if r.After? {
      AlwaysCoupled(r.past);
      match r.event
      case Main => CoupledMain(End(r.past));
      case SysTick => CoupledTick(End(r.past));
      case WdCount => CoupledWdCount(End(r.past));
    }
  }

  /** A poll that has looked started after the last one ended. */
  lemma StartKnown(m: Machine, h: History)
    requires InFlight(m, h)
    ensures m.pc.Decide? || m.pc.AnchorWrite? || m.pc.LedOn? ==> LastEnd(h.log) <= h.cur.start
  {
  }
}
