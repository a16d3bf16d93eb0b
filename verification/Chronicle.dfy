/** Runs of the firmware, and the true-time record an all-seeing observer keeps of them.
    The record watches the machine and never influences it. */
module Chronicle {
  import opened Word32
  import opened Firmware
  import opened Blinker

  /** The poll in progress: where it started, where its look was entered and first read the
      counter, its finished looks, when it switched the LED off, the new anchor it read. */
  datatype Current = Current(
    start: nat, call: nat, first: nat, offLook: Look, onLook: Look, offAt: nat, anchorAt: nat)

  /** Seen from the watchdog: the time of the last feed, handler runs since the watchdog was
      enabled or last counted, counts since it was enabled or last fed, counts since the
      last handler run. */
  datatype Hunger = Hunger(fed: nat, sinceCount: nat, counts: nat, sinceTick: nat)

  datatype History = History(
    now: nat,      // handler runs since boot: the true time
    anchor: nat,   // the true time that led_run_time stands for
    log: Log,      // finished polls
    cur: Current,
    hunger: Hunger)

  const NO_LOOK := Look(0, 0, 0, 0, 0)
  const FRESH := History(0, 0, Booted(0), Current(0, 0, 0, NO_LOOK, NO_LOOK, 0, 0), Hunger(0, 0, 0, 0))

  datatype World = World(m: Machine, h: History, resets: nat)

  function HandlerRan(h: History): History {
    h.(now := h.now + 1, hunger := h.hunger.(sinceCount := h.hunger.sinceCount + 1, sinceTick := 0))
  }

  /** Stores the look that ends now with the given age. */
  function EndLook(h: History, site: Site, read: nat, age: Word): History {
    var look := Look(h.cur.call, h.cur.first, read, h.now, age);
    h.(cur := if site == OffTest then h.cur.(offLook := look) else h.cur.(onLook := look))
  }

  function LookOf(h: History, site: Site): Look {
    if site == OffTest then h.cur.offLook else h.cur.onLook
  }

  function ObserveInit(m: Machine, h: History, step: InitStep): History {
    match step
    case UnmaskIrq => if m.irq.pending then HandlerRan(h) else h
    case WdEnable => h.(hunger := h.hunger.(sinceCount := 0, counts := 0))
    case BootFeed => h.(log := Booted(h.now), hunger := h.hunger.(fed := h.now, counts := 0))
    case _ => h
  }

  function ObserveLoop(m: Machine, h: History): History
    requires !m.pc.Init?
  {
    var c := h.cur;
    match m.pc
    case LoopFeed => h.(hunger := h.hunger.(fed := h.now, counts := 0))
    case Call(site) => h.(cur := c.(start := if site == OffTest then h.now else c.start, call := h.now))
    case Read(_, _) => h.(cur := c.(first := h.now))
    case Compare(site, bef, tmp) => if tmp >= bef then EndLook(h, site, c.first, tmp - bef) else h
    case Reread(_, _) => h
    case RereadReturn(site, _) => EndLook(h, site, h.now, ExecLoop(m).pc.age)
    case Decide(_, _) =>
      if ExecLoop(m).pc.LoopFeed?
      then h.(log := Then(h.log, Idle(c.start, c.offLook, c.onLook, h.now)))
      else h
    case LedOff => h.(cur := c.(offAt := h.now))
    case AnchorRead => h.(cur := c.(anchorAt := h.now))
    case AnchorWrite(_) =>
      h.(anchor := c.anchorAt,
         log := Then(h.log, Off(c.start, c.offLook, c.offAt, c.anchorAt, h.now)))
    case LedOn => h.(log := Then(h.log, On(c.start, c.offLook, c.onLook, h.now)))
  }

  function Observe(m: Machine, h: History, e: Event): History {
    match e
    case Main => if m.pc.Init? then ObserveInit(m, h, m.pc.step) else ObserveLoop(m, h)
    case SysTick => if Handles(m) then HandlerRan(h) else h
    case WdCount =>
      if m.wd.on
      then h.(hunger := h.hunger.(sinceCount := 0, counts := h.hunger.counts + 1,
                                  sinceTick := h.hunger.sinceTick + 1))
      else h
  }

  /** A watchdog reset starts a new record along with the new life of the firmware. */
  function Step(w: World, e: Event): World {
    var bites := e == WdCount && Starving(w.m.wd);
    World(Next(w.m, e),
          if bites then FRESH else Observe(w.m, w.h, e),
          if bites then w.resets + 1 else w.resets)
  }

  /** Any finite sequence of events is a run: the two clocks may strike at any point. */
  datatype Run = PowerOn | After(past: Run, event: Event)

  function End(r: Run): World {
    match r
    case PowerOn => World(POWER_ON, FRESH, 0)
    case After(past, e) => Step(End(past), e)
  }
}
