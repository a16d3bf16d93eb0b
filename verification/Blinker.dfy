/** The blinker on an unbounded clock: what a history of polls looks like when
    every instant is a natural number that never wraps. */
module Blinker {
  import opened Word32
  import opened Firmware

  /** One call of jiffies_before: entered at `call`, first read of the counter at
      `first`, the read whose value is returned at `read`, left at `ret` with `age`. */
  datatype Look = Look(call: nat, first: nat, read: nat, ret: nat, age: Word)

  /** One run of led_run_proc. */
  datatype Poll =
    | Off(start: nat, first: Look, offAt: nat, anchor: nat, end: nat)
    | On(start: nat, first: Look, second: Look, end: nat)
    | Idle(start: nat, first: Look, second: Look, end: nat)

  /** All polls since boot; the feed that ends system_init counts as a poll at `at`. */
  datatype Log = Booted(at: nat) | Then(past: Log, poll: Poll)

  /** True time of the anchor after these polls. */
  function Anchor(log: Log): nat {
    match log
    case Booted(_) => 0
    case Then(past, p) => if p.Off? then p.anchor else Anchor(past)
  }

  function LastStart(log: Log): nat {
    match log
    case Booted(at) => at
    case Then(_, p) => p.start
  }

  function LastEnd(log: Log): nat {
    match log
    case Booted(at) => at
    case Then(_, p) => p.end
  }

  /** The blink cycles completed so far. */
  function Cycles(log: Log): nat {
    match log
    case Booted(_) => 0
    case Then(past, p) => Cycles(past) + if p.Off? then 1 else 0
  }

  /** What a poll writes to the LED pin. */
  function Action(p: Poll): seq<PinWrite> {
    match p
    case Off(_, _, _, _, _) => [SetBits]
    case On(_, _, _, _) => [ResetBits]
    case Idle(_, _, _, _) => []
  }

  /** What all polls write. */
  function Commands(log: Log): seq<PinWrite> {
    match log
    case Booted(_) => []
    case Then(past, p) => Commands(past) + Action(p)
  }

  /** Polls follow one another in time and choose their action by the sampled ages alone. */
  ghost predicate Lawful(from: nat, p: Poll) {
    && from <= p.start <= p.first.call
    && p.first.call <= p.first.first <= p.first.read <= p.first.ret
    && match p
       case Off(_, first, offAt, anchor, end) =>
         && first.age >= OFF_AGE
         && first.ret <= offAt <= anchor <= end
       case _ =>
         && p.first.age < OFF_AGE
         && p.first.ret <= p.second.call <= p.second.first <= p.second.read <= p.second.ret <= p.end
         && (p.On? <==> p.second.age >= ON_AGE)
  }

  ghost predicate Ordered(log: Log) {
    match log
    case Booted(_) => true
    case Then(past, p) => Ordered(past) && Lawful(LastEnd(past), p)
  }

  /** The age a 32-bit look reports about an anchor set at time `a`, with nothing assumed
      about how old the anchor is. */
  ghost predicate Sampled(a: nat, l: Look) {
    var again := l.first % MOD < a % MOD;
    && (!again ==> l.read == l.first)
    && l.age == (l.read - a - if again then 1 else 0) % MOD
  }

  /** One when the counter has wrapped between `a` and `t`, else zero. */
  function Lost(a: nat, t: nat): nat {
    if t / MOD == a / MOD then 0 else 1
  }

  /** The age an unbounded clock would report, short by one tick after a wrap. */
  ghost predicate Honest(a: nat, l: Look) {
    && l.age == l.read - a - Lost(a, l.read)
    && (Lost(a, l.read) == 0 ==> l.read == l.first)
  }

  ghost predicate SampledPoll(a: nat, p: Poll) {
    Sampled(a, p.first) && (!p.Off? ==> Sampled(a, p.second))
  }

  ghost predicate HonestPoll(a: nat, p: Poll) {
    Honest(a, p.first) && (!p.Off? ==> Honest(a, p.second))
  }

  /** What the 32-bit firmware does on any schedule whatever. */
  ghost predicate Observed(log: Log) {
    Ordered(log) && (log.Then? ==> Observed(log.past) && SampledPoll(Anchor(log.past), log.poll))
  }

  /** A run of the unbounded-clock blinker. */
  ghost predicate Ideal(log: Log) {
    Ordered(log) && (log.Then? ==> Ideal(log.past) && HonestPoll(Anchor(log.past), log.poll))
  }

  /** Boot took at most `b` ticks, and from the start of one poll to the end of the
      next there are at most `h`. */
  ghost predicate PacedLog(log: Log, b: nat, h: nat) {
    match log
    case Booted(at) => at <= b
    case Then(past, p) => PacedLog(past, b, h) && p.end <= LastStart(past) + h
  }

  lemma StartBeforeEnd(log: Log)
    requires Ordered(log)
    ensures LastStart(log) <= LastEnd(log)
  {
  }

  // ---- one look ----

  lemma LostIsMonotone(a: nat, t: nat, u: nat)
    requires a <= t <= u
    ensures Lost(a, t) <= Lost(a, u)
    ensures u < a + MOD ==> Lost(a, u) == u / MOD - a / MOD
    ensures a / MOD + Lost(a, t) <= u / MOD
  {
    assert a / MOD <= t / MOD <= u / MOD;
  }

  /** Interrupts at any point inside the call cannot make the result wrong by more than
      the one tick the wrap branch drops, provided the anchor is younger than the
      counter's period when the call returns. */
  lemma SamplingBound(a: nat, l: Look)
    requires a <= l.call <= l.first <= l.read <= l.ret < a + MOD
    requires Sampled(a, l)
    ensures Honest(a, l)
    ensures l.call - a - 1 <= l.age <= l.ret - a
    ensures l.age == l.read - a <==> a % MOD <= l.first % MOD
  {
  }

  /** When does that bound hold if nothing is assumed about the anchor's age? Exactly when
      the no-wrap branch finds the anchor younger than the counter's period, and the wrap
      branch's second read finds it no older than that period. */
  lemma SamplingBoundExactly(a: nat, l: Look)
    requires a <= l.call <= l.first <= l.read <= l.ret && l.ret - l.call < MOD - 1
    requires Sampled(a, l)
    ensures l.call - a - 1 <= l.age <= l.ret - a
       <==> if l.first % MOD < a % MOD then l.read - a <= MOD else l.first - a < MOD
  {
  }

  /** Looks at the same anchor, one after the other and inside one period: the reported
      age never falls, never outruns the clock, and stalls by exactly one tick when the
      counter wraps in between. */
  lemma LooksAreMonotone(a: nat, l: Look, k: Look)
    requires a <= l.read <= k.read < a + MOD
    requires Honest(a, l) && Honest(a, k)
    ensures l.age <= k.age <= l.age + (k.read - l.read)
    ensures k.age - l.age == k.read - l.read - (k.read / MOD - l.read / MOD)
  {
  }

  // ---- the window sustains itself ----

  /** Bounded polling keeps the anchor young enough for 32-bit arithmetic, so the firmware
      behaves as a blinker on an unbounded clock, over any number of wraps. */
  lemma {:induction false} BecomesIdeal(log: Log, b: nat, h: nat)
    requires Observed(log) && PacedLog(log, b, h)
    requires b + h < MOD && OFF_AGE + h < MOD
    ensures Ideal(log)
    ensures Anchor(log) <= LastEnd(log)
    ensures || LastStart(log) <= Anchor(log) + OFF_AGE - 1 + Lost(Anchor(log), LastEnd(log))
            || (log.Booted? && log.at <= b)
  {
    match log
    case Booted(_) =>
    case Then(past, p) =>
      BecomesIdeal(past, b, h);
      var a := Anchor(past);
      assert p.end < a + MOD;
      SamplingBound(a, p.first);
      if !p.Off? {
        SamplingBound(a, p.second);
        LostIsMonotone(a, p.first.read, p.end);
      }
  }
}
