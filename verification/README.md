# The timing core of STM32_BareMetal, verified

The firmware blinks an LED from a 32-bit tick counter. `SysTick_Handler` increments `jiffies` every
10 ms and may run between any two memory accesses of the main thread. `led_run_proc` polls
`jiffies_before(led_run_time)`: at an age of 100 ticks it switches the LED off and re-anchors
`led_run_time`, from 50 ticks on it switches the LED on. `main` feeds the watchdog and polls, for ever.
The counter wraps every 2^32 ticks, and after a wrap `jiffies_before` returns
`jiffies + ~bef`, which is one tick less than the time that has passed. The model keeps that.

This project models those functions as the source has them and proves what any run of them does: any number
of wraps, interrupts at any point, any number of watchdog resets.

## How it is built

| file | content |
|---|---|
| `Word32.dfy` | the target's 32-bit unsigned arithmetic |
| `Firmware.dfy` | the code as a machine of single memory accesses, with interrupt mask and watchdog |
| `Blinker.dfy` | polls on an unbounded clock; what one look at the clock can report |
| `BlinkCycles.dfy` | cycle lengths, drift, lost ticks, lit times, on the unbounded clock |
| `Chronicle.dfy` | runs (any interleaving of main thread, SysTick and watchdog counts) and their true-time record |
| `Coupling.dfy` | the invariant between machine and record, with no assumption on the schedule |
| `Evidence.dfy` | the record told again from the events of the run alone, and shown to be the same |
| `Pacing.dfy` | the assumptions on time, and how polling bounds or watchdog survival imply them |
| `Theorems.dfy` | what holds in every state of every run |
| `Starvation.dfy` | when the watchdog resets |
| `QuietRuns.dfy` | building blocks for concrete runs: boots, polls and whole cycles, at a pace of polls or of feeds |
| `Witnesses.dfy` | runs that show the bounds and conditions of the theorems are exact |
| `RateWitnesses.dfy` | runs that fill a feed gap, or a poll, as full as the rates allow |
| `Boards.dfy` | the same functions as methods that update a `Board` in place, each proved to be a stretch of a run |

True time `now` counts handler runs since boot; `anchor` is the true time `led_run_time` stands for. Runs are
judged by two numbers. `b` bounds the ticks handled before the feed that ends `system_init`. `h` bounds the ticks
from the start of one poll to the end of the next; the init feed counts as a poll. `PacedRun(r, b, h)` says
that run `r` keeps to them. A bound `g` between poll starts and `d` inside a poll give `h = g + d`. A bound `j` on the
ticks between two feeds gives `h = 2 * j`, and survival of the watchdog gives `j` from the rates of the two clocks,
since a slower main thread is reset. So the youth of the anchor that the wrap arithmetic needs is proved, not
assumed.

Some conditions are exact rather than sufficient. The firmware refines the unbounded-clock blinker on all runs of a
pace if and only if `100 + h < 2^32` and `b + h < 2^32`, and on all runs of a feed gap if and only if the same holds of
`2 * j` for `h`. Every cycle lights the LED if and only if `h <= 50` and `b + h < 100`, likewise with `2 * j`. A run is
never reset if and only if every gap between feeds is short. The bounds on cycle lengths, on the first light and on lit
times are attained, and so are the feed gaps drawn from the rates of the clocks.

## Model

| member | source | states |
|---|---|---|
| Blinker.SamplingBound | src/asyn.c:32-47 | for any interrupts inside the call, the result is between the true age at the call less one and the true age at return, if the anchor is younger than 2^32 ticks on return; it is exact if and only if the no-wrap branch was taken |
| Blinker.SamplingBoundExactly | src/asyn.c:38-46 | the same bound, from call to return, with nothing assumed about the anchor and fewer than 2^32 - 1 ticks inside the call: it holds if and only if the no-wrap branch finds the anchor younger than 2^32, or the wrap branch's second read finds it at most 2^32 old |
| Blinker.LooksAreMonotone | src/asyn.c:32-47 | successive looks at one anchor never report less, never outrun the clock, and stall by one tick exactly at a wrap |
| Blinker.BecomesIdeal | src/led.c:8-19 | bounded pace keeps every anchor young enough, so every 32-bit decision is one an unbounded clock would justify; by induction over the polls |
| BlinkCycles.NeverEarly | src/asyn.c:38-46 | a reported age never exceeds the true one, whatever the age |
| BlinkCycles.CyclesAreLong | src/led.c:10-14 | n completed cycles take at least 100n ticks on any schedule |
| BlinkCycles.CycleLengthsHold | src/led.c:10-14 | each cycle takes from 100 to 99 + h ticks, one more only if the counter wrapped in it; after a boot of 100 ticks or more the first poll may end the first cycle as late as b + h |
| BlinkCycles.Drift | src/led.c:10-14 | the n-th anchor lies between 100n and n(99 + h) plus the number of wraps so far, plus b - 99 if the boot took 100 ticks or more |
| BlinkCycles.UnderReportMeansWrap | src/asyn.c:42-46 | a look that reports too little means the counter wrapped since the anchor |
| BlinkCycles.LossyCyclesAreRare | src/led.c:13 | re-anchoring clears the error: no more lossy cycles than wraps |
| BlinkCycles.LossyCyclesExactly | src/asyn.c:42-46 | the lossy cycles are exactly those whose deciding look came after a wrap, and the open cycle is lossy exactly if its last look did |
| BlinkCycles.AgesGrowHolds | src/led.c:10-15 | over a whole run, each look at an anchor reports at least what the one before did; the second look of a poll is never below the first |
| BlinkCycles.CyclesAreLit | src/led.c:15-18 | with h <= 50 and b + h < 100 no LED_OFF comes without an LED_ON in the same cycle |
| BlinkCycles.LitTimesHold | src/led.c:10-18 | with h <= 50 and b + h < 100 the LED is lit from between 50 and 50 + h ticks after the anchor, for 51 - h to 50 + h ticks, wraps included; a boot of 50 ticks or more can delay the first light to b + h and shorten it to 100 - b - h |
| BlinkCycles.LitCyclesAlternate | src/led.c:10-18 | then the pin never sees LED_OFF twice running, nor first |
| BlinkCycles.CommandsCount | src/led.c:12 | one LED_OFF command for each completed cycle |
| BlinkCycles.LastCommandTells | src/led.c:10-18 | the last command is LED_ON if the cycle in progress has been lit, and LED_OFF if it has not and a cycle was completed |
| Coupling.WrapBranchSum | src/asyn.c:44-45 | the wrap branch's 32-bit sum is the true age less one, modulo 2^32 |
| Coupling.InFlightLook | src/asyn.c:32-47 | each access of jiffies_before keeps what is known of the look in progress |
| Coupling.AlwaysCoupled | src/sys_init.c:25-42 | in every state of every run, jiffies and led_run_time are the true times modulo 2^32, the pin's history is that of the polls, the polls decide by their sampled ages, and interrupt mask, tick timer and watchdog stand as system_init leaves them |
| Evidence.ResetStartsOver | src/user/main.c:9 | what follows a watchdog reset is a run from power-on: system_init starts again, with everything off |
| Evidence.TimeIsTold | src/asyn.c:9-12 | true time told from the events: an expiry under the mask is kept, later ones join it, every other expiry runs the handler |
| Evidence.RatesAreTold | src/fun.c:19-30 | the record's rate counters are the ticks since the last watchdog count, and the counts since the last tick |
| Evidence.WritesAreTold | src/led.c:12-17 | the pin's history is the commands the main thread executed, in order |
| Evidence.InstantsAreTold | src/led.c:8-19 | the recorded start of a poll, entry and first read of a look, LED_OFF write, anchor read and feed are when the main thread last took those steps |
| Evidence.LooksAreTold | src/asyn.c:32-47 | the recorded looks have the instants of their call, reads and return, and the age returned |
| Evidence.LogIsTold | src/led.c:8-19 | the log is the polls in order, each with the instants of its steps |
| Evidence.RecordIsTold | src/user/main.c:7-18 | in every state of every run, the counter, led_run_time, the pin, the log, the last feed and the rates are those of the events since the last reset |
| Pacing.BoundedPollingIsPaced | src/user/main.c:12-17 | at most g ticks between poll starts and d inside a poll give pace g + d |
| Pacing.FeedGapsPace | src/user/main.c:12-17 | if at most j ticks fit between two feeds, at most 2j lie between one poll's start and the next poll's end, across resets |
| Pacing.RatesBoundGaps | src/fun.c:19-35 | with at most p ticks per count of the running watchdog, at most 2000p ticks fit between two feeds that avoid a reset |
| Pacing.SpacedTicksBoundGaps | src/fun.c:19-35 | with at least k counts between two ticks of the same feed gap, at most j ticks fit between two feeds once Span(k, j) reaches 2000 |
| Pacing.SpanIsProduct | src/fun.c:24 | Span(k, j) is k * j |
| Theorems.NoEarlySwitching | src/led.c:10-18 | LED_OFF at true age 100 or more, LED_ON at 50 or more, 100n <= now, on any run at all |
| Theorems.BootIsQuiet | src/sys_init.c:30-36 | while interrupts are masked the counter stays zero and a tick is pending if and only if the timer has expired since it was started; unmasking then runs the handler exactly once |
| Theorems.PinCounts | src/led.c:12 | the pin has been set once for each completed cycle, and once more by a poll that has switched the LED off and not yet stored its anchor |
| Theorems.LastCommandOnPin | src/led.c:10-18 | between polls the last command on the pin tells whether the LED has been lit in the cycle in progress |
| Theorems.NoWrapBranchBeforeFirstWrap | src/asyn.c:38-46 | before the counter wraps, the wrap branch is never entered and every look is exact |
| Theorems.ClockSound | src/led.c:6-14 | self-sustaining invariant: the anchor's age never exceeds 99 + h, plus one after a wrap, and always fits the counter; a boot of 100 ticks or more can stretch the first cycle to b + h |
| Theorems.WatchdogMakesClockSound | src/user/main.c:12-17 | for every j: if at most j ticks fit between two feeds that avoid a reset, the anchor's age never exceeds 100 + 2j in any state of any run, resets included; after a boot of 100 ticks or more the first cycle can stretch to b + 2j |
| Theorems.RatedWatchdogMakesClockSound | src/fun.c:19-35 | the same, for any boot, from the rates of the two clocks, with j = 2000p |
| Theorems.SpacedTicksMakeClockSound | src/fun.c:19-35 | the same, for any boot, from the spacing of ticks, with any j for which k * j reaches 2000 |
| Theorems.NominalClockSound | src/asyn.c:20 | with the 10 ms tick and 1 ms count of the source, wherever the first tick falls, at most 200 ticks fit between two feeds and the anchor is never older than 500; after a boot of 100 ticks or more the first cycle can stretch to b + 400 |
| Theorems.BoundedPollingMakesClockSound | src/user/main.c:12-17 | the anchor's age never exceeds 100 + g + d; after a boot of 100 ticks or more the first cycle can stretch to b + g + d |
| Theorems.RefinesUnboundedBlinker | src/led.c:8-19 | every paced run is a run of the unbounded-clock blinker with the same pin writes, log and pin being those told from the events |
| Theorems.EveryDecisionIsSound | src/led.c:10-15 | every age led_run_proc decides on is between the true age at call less one and the true age at return |
| Theorems.BlinkCount | src/led.c:10-14 | 100n <= now <= (n + 1)(99 + h) + wraps, n the completed cycles, and the same for the n-th anchor; plus b - 99 if the boot took 100 ticks or more |
| Theorems.CycleLengthsOfRun | src/led.c:10-14 | CycleLengthsHold, for every paced run of the machine |
| Theorems.LostTicksAreRare | src/asyn.c:42-46 | at most now / 2^32 cycles ever see an under-report |
| Theorems.LostTicksExactly | src/asyn.c:42-46 | the lossy cycles of a paced run are exactly those decided by a look after a wrap |
| Theorems.AgesGrowInRun | src/led.c:10-15 | AgesGrowHolds, for every paced run of the machine |
| Theorems.PinAlternates | src/led.c:10-18 | LED_OFF never follows LED_OFF on the pin of a paced run, unfinished polls included |
| Theorems.LitTimesOfRun | src/led.c:10-18 | LitTimesHold for runs, with h <= 50 and b + h < 100; an anchor older than 50 + h (and, after a boot of 50 ticks or more, a time past b + h) has seen the LED lit |
| Starvation.ResetExactlyWhenStarved | src/fun.c:27-35 | with no feed, a running watchdog resets if and only if it counts at least as often as its counter stands; the reset lands at the first step of system_init with everything off |
| Starvation.FeedBuysTwoSeconds | src/fun.c:19-35 | from any feed: a gap of 2000 counts resets, to the first step of system_init, and a shorter one does not |
| Starvation.NeverResetExactly | src/user/main.c:9-17 | a run is never reset if and only if every gap is short: below 2000 counts after a feed, below 0xFFF from the enabling of the watchdog to the first feed |
| Starvation.CounterStaysPositive | src/user/main.c:12-17 | the counter of a running watchdog is positive in every reachable state, and only a count that finds it at one resets |
| Witnesses.RefinementExactly | src/asyn.c:32-47 | refinement holds on all runs of a pace if and only if 100 + h and b + h stay below 2^32 |
| Witnesses.FeedGapsRefineExactly | src/user/main.c:12-17 | refinement holds on all runs with feed gaps of at most j if and only if 100 + 2j and b + 2j stay below 2^32 |
| Witnesses.EveryCycleLitExactly | src/led.c:10-18 | every cycle is lit on all runs of a pace if and only if h <= 50 and b + h < 100 |
| Witnesses.FeedGapsLightExactly | src/user/main.c:12-17 | every cycle is lit on all runs with feed gaps of at most j if and only if 2j <= 50 and b + 2j < 100 |
| Witnesses.LongestCycle | src/led.c:10-14 | for every h > 0 a cycle of 99 + h ticks occurs without a wrap |
| Witnesses.LongestWrappedCycle | src/led.c:10-18 | for every h > 0 a cycle that contains a wrap takes 100 + h ticks, with the LED lit for 50 + h |
| Witnesses.ShortestLight | src/led.c:10-18 | for every h from 1 to 50 a light of 51 - h ticks occurs |
| Witnesses.LatestLight | src/led.c:10-18 | for every h from 1 to 50 the LED is first lit 50 + h ticks after an anchor, eleven wraps into a run |
| Witnesses.AliasedThirdPoll | src/asyn.c:38-46 | a run with 100 + h >= 2^32 whose third poll finds the anchor exactly 2^32 ticks old and reads age 0 twice |
| Witnesses.OneLossyCycle | src/asyn.c:42-46 | a run with exactly one lossy cycle, the one in which the counter first wraps |
| RateWitnesses.RatedGapFills | src/fun.c:19-35 | at p ticks per count, a feed gap of 2000p ticks does occur |
| RateWitnesses.SpacedGapFills | src/fun.c:19-35 | at k counts per tick, a feed gap of j ticks does occur if j - 1 spacings stay below 2000 |
| RateWitnesses.NominalGapFills | src/asyn.c:20 | at the rates of the source, the feed gap of 200 ticks does occur |
| RateWitnesses.PollingIsAttained | src/user/main.c:12-17 | for all g and d, g ticks to a poll and d ticks inside it do occur |
| Boards.Board.SysTickHandler | src/asyn.c:9-12 | increments jiffies, wrapping |
| Boards.Board.SysTickExpires | src/asyn.c:9-12 | a running timer's expiry runs the handler at once, or is kept pending under the mask |
| Boards.Board.Interrupts | src/asyn.c:9-12 | any number of ticks and watchdog counts change nothing but counter, pending flag and watchdog count |
| Boards.Board.SysTickInit | src/asyn.c:14-21 | the counter is zero, the ticks run, none is pending, and interrupts are still masked |
| Boards.Board.JiffiesGet | src/asyn.c:23-30 | returns the true time modulo 2^32 |
| Boards.Board.WrapBranch | src/asyn.c:42-46 | finishes the look in progress with the re-read value |
| Boards.Board.JiffiesBefore | src/asyn.c:32-47 | returns the age of a look made during the call, within a tick of the true age at call and at return |
| Boards.Board.SwitchOff | src/led.c:12-13 | sets the pin once and ends the poll with the new anchor |
| Boards.Board.LedRunProc | src/led.c:8-19 | adds one lawful poll to the record; the pin is set by LED_OFF, reset by LED_ON and otherwise left alone, and led_run_time moves only with LED_OFF, to the new anchor |
| Boards.Board.DisableIrq | src/fun.c:9-12 | masks interrupts and changes nothing else |
| Boards.Board.EnableIrq | src/fun.c:14-17 | unmasks; if the timer expired under the mask the tick is handled, once, so the counter is one, and otherwise zero |
| Boards.Board.IwdgConfig | src/fun.c:19-25 | unlocks the reload register and sets it to 2000; the watchdog stays off |
| Boards.Board.WatchdogEnable | src/fun.c:27-30 | starts the watchdog at 0xFFF, keeping the reload value |
| Boards.Board.WatchdogFeed | src/fun.c:32-35 | the counter of the running watchdog is 2000 again, whichever feed it is, and no poll is added |
| Boards.Board.ConfigureMasked | src/sys_init.c:30-34 | whatever ticks expire meanwhile, the counter is zero and the watchdog off when the masked section ends |
| Boards.Board.SystemInit | src/sys_init.c:25-42 | ends with no poll made, ticks running, interrupts unmasked, none pending, led_run_time zero, the watchdog on and at 2000 |
| Boards.Board.RunFor | src/user/main.c:7-18 | n passes of the loop are n lawful polls; log and pin are those told from the events, with one LED_OFF for each cycle; at a bounded pace the run is one of the unbounded blinker, with its cycle lengths and, at h <= 50, its alternating pin |

The watchdog's start value 0xFFF, its reset at zero and the write access that `IWDG_Enable` and
`IWDG_ReloadCounter` withdraw again follow STM32F4xx_StdPeriph_Driver/src/stm32f4xx_iwdg.c:23-26 and 172-207.

## Left out

- Peripheral drivers, lwIP and the Ethernet driver: not called by the timing core, or seen only through their effect on the modelled state.
- GPIO configuration and the pin's level before the first write: `led_init` does not set it, so claims about light start at the first command.
- SysTick_Config's refusal of periods that do not fit 24 bits: HCLK / 100 fits.
- Clock accuracy, the prescaler and the 10 ms period: the two clocks are independent, and theorems take their ratio as a parameter.
- Compiler caching of `jiffies`, which is not declared volatile: each access in the source is taken to read memory afresh, with possibly no tick in between. The unused sum at src/asyn.c:44 is a step that changes nothing.
- IWDG register update delays, window and flags: a write takes effect at once.
- Boards.Board.RunFor: the watchdog never bites inside a method, because a method cannot be cut short by a reset; runs with resets are covered by the step machine in `Firmware.dfy` and `Chronicle.dfy`.
