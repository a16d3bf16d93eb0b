/** The firmware as a machine of single memory accesses. `Exec` is one step of
    the main thread (system_init followed by the endless loop), `Next` adds the
    two clocks that may strike between any two of those steps: the SysTick timer
    and the watchdog's own counter. */
module Firmware {
  import opened Word32

  const WD_RELOAD: int := 2000
  const WD_RESET_VALUE: int := 0xFFF
  const OFF_AGE: int := 100
  const ON_AGE: int := 50

  /** The steps of system_init, in order. */
  datatype InitStep =
    | RccConfig | NvicConfig | MaskIrq
    | WdUnlock | WdSetReload
    | ZeroJiffies | StartSysTick
    | LedInit | UnmaskIrq
    | WdEnable | BootFeed

  /** The two calls of jiffies_before in led_run_proc. */
  datatype Site = OffTest | OnTest

  /** Where the main thread stands, together with its live registers. */
  datatype Pc =
    | Init(step: InitStep)
      // the endless loop of main
    | LoopFeed
      // jiffies_before, called from `site`
    | Call(site: Site)
    | Read(site: Site, bef: Word)
    | Compare(site: Site, bef: Word, tmp: Word)
    | Reread(site: Site, bef: Word)
    | RereadReturn(site: Site, bef: Word)
      // led_run_proc
    | Decide(site: Site, age: Word)
    | LedOff
    | AnchorRead
    | AnchorWrite(value: Word)
    | LedOn

  /** Inside jiffies_before. */
  predicate Looking(pc: Pc) {
    pc.Call? || pc.Read? || pc.Compare? || pc.Reread? || pc.RereadReturn?
  }

  /** LED_OFF sets the pin, LED_ON resets it. */
  datatype PinWrite = SetBits | ResetBits

  /** The SysTick interrupt: timer started, interrupts disabled, expired while disabled. */
  datatype Irq = Irq(ticking: bool, masked: bool, pending: bool)

  /** The watchdog: counting, reload register writable, its value, the counter. */
  datatype Watchdog = Watchdog(on: bool, access: bool, reload: int, count: int)

  datatype Machine = Machine(
    pc: Pc,
    jiffies: Word,        // asyn.c
    ledRunTime: Word,     // led.c
    gpio: seq<PinWrite>,  // writes made to the LED pin since reset
    irq: Irq,
    wd: Watchdog)

  /** The state after any reset: statics hold their initial values, no clock runs. */
  const POWER_ON := Machine(Init(RccConfig), 0, 0, [], Irq(false, false, false),
                            Watchdog(false, false, WD_RESET_VALUE, WD_RESET_VALUE))

  /** A step of the main thread, an expiry of the SysTick timer, a watchdog count. */
  datatype Event = Main | SysTick | WdCount

  /** SysTick_Handler. */
  function Handler(jiffies: Word): Word {
    Add(jiffies, 1)
  }

  /** watchdog_feed. */
  function Feed(wd: Watchdog): Watchdog {
    wd.(access := false, count := wd.reload)
  }

  /** A step of system_init. */
  function ExecInit(m: Machine, step: InitStep): Machine {
    match step
    case RccConfig => m.(pc := Init(NvicConfig))
    case NvicConfig => m.(pc := Init(MaskIrq))
    case MaskIrq => m.(pc := Init(WdUnlock), irq := m.irq.(masked := true))
    case WdUnlock => m.(pc := Init(WdSetReload), wd := m.wd.(access := true))
    case WdSetReload =>
      m.(pc := Init(ZeroJiffies), wd := if m.wd.access then m.wd.(reload := WD_RELOAD) else m.wd)
    case ZeroJiffies => m.(pc := Init(StartSysTick), jiffies := 0)
    case StartSysTick => m.(pc := Init(LedInit), irq := m.irq.(ticking := true))
    case LedInit => m.(pc := Init(UnmaskIrq))
    case UnmaskIrq =>
      m.(pc := Init(WdEnable), irq := m.irq.(masked := false, pending := false),
         jiffies := if m.irq.pending then Handler(m.jiffies) else m.jiffies)
    case WdEnable =>
      m.(pc := Init(BootFeed), wd := m.wd.(on := true, access := false, count := WD_RESET_VALUE))
    case BootFeed => m.(pc := LoopFeed, wd := Feed(m.wd))
  }

  /** A step of the endless loop: the feed, then led_run_proc. */
  function ExecLoop(m: Machine): Machine
    requires !m.pc.Init?
  {
    match m.pc
    case LoopFeed => m.(pc := Call(OffTest), wd := Feed(m.wd))
    case Call(site) => m.(pc := Read(site, m.ledRunTime))
    case Read(site, bef) => m.(pc := Compare(site, bef, m.jiffies))
    case Compare(site, bef, tmp) =>
      m.(pc := if tmp >= bef then Decide(site, tmp - bef) else Reread(site, bef))
    case Reread(site, bef) => m.(pc := RereadReturn(site, bef))  // this value is never used
    case RereadReturn(site, bef) => m.(pc := Decide(site, Add(m.jiffies, Complement(bef))))
    case Decide(site, age) =>
      m.(pc := if site == OffTest then (if age >= OFF_AGE then LedOff else Call(OnTest))
               else (if age >= ON_AGE then LedOn else LoopFeed))
    case LedOff => m.(pc := AnchorRead, gpio := m.gpio + [SetBits])
    case AnchorRead => m.(pc := AnchorWrite(m.jiffies))
    case AnchorWrite(value) => m.(pc := LoopFeed, ledRunTime := value)
    case LedOn => m.(pc := LoopFeed, gpio := m.gpio + [ResetBits])
  }

  /** One step of the main thread. */
  function Exec(m: Machine): Machine {
    if m.pc.Init? then ExecInit(m, m.pc.step) else ExecLoop(m)
  }

  /** A SysTick expiry is handled at once. */
  predicate Handles(m: Machine) {
    m.irq.ticking && !m.irq.masked
  }

  function Expire(m: Machine): Machine {
    if Handles(m) then m.(jiffies := Handler(m.jiffies))
    else if m.irq.ticking then m.(irq := m.irq.(pending := true))
    else m
  }

  /** The next watchdog count reaches zero. */
  predicate Starving(wd: Watchdog) {
    wd.on && wd.count <= 1
  }

  function CountDown(wd: Watchdog): Watchdog {
    if wd.on then wd.(count := wd.count - 1) else wd
  }

  function Next(m: Machine, e: Event): Machine {
    match e
    case Main => Exec(m)
    case SysTick => Expire(m)
    case WdCount => if Starving(m.wd) then POWER_ON else m.(wd := CountDown(m.wd))
  }
}
