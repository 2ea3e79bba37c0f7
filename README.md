# mtime: a millisecond timebase and a debounced button, modelled in Dafny

This project models the millisecond timebase of the STM32G474 quick-start
firmware (`examples/mtime.rs`) and the button loop in its `main` that uses it.

- **The cell `G_MTIME`** holds nothing before the timebase is started, then one
  `MTime` record: a tick `count` and the SysTick peripheral handle moved in at
  start. It is the class `Timebase.MTimeCell` with one field `cell: Option<MTime>`.
  Every access to the cell runs inside one `interrupt::free` critical section, so
  each of the three operations is one atomic method of that class:
  - `StartMTimeCounter` (`start_mtime_counter`) fills an empty cell with count 0.
    On a filled cell it panics and leaves the record as it was.
  - `SysTick` (the SysTick exception handler) adds exactly one to the count.
    It fails through its `unwrap` when the cell is empty.
  - `Mtime` (`mtime()`) returns `Some(count)`, or `None` before the start.
- **The state machine.** `Timebase.Run` gives the meaning of any sequence of
  start, tick and read calls. It returns the final cell and every value read, or
  the first fault. With interrupts masked inside each call, any interleaving of
  `main` and the interrupt handler is such a sequence. Each class method's
  contract states its effect as a one-call `Run`. The lemmas prove the following
  for all call sequences:
  - before a start, reads give `None`;
  - once started, only a second start faults;
  - the count grows by exactly one per tick;
  - reads never decrease;
  - start then `n` ticks then a read gives `n`.
- **The debouncer.** `main` accepts a button level only after 50 consecutive
  samples equal the expected level. A mismatching sample resets the run count to 0.
  After each accepted level it resets the count and flips the expected level. On
  an accepted high level it switches the LED on and shows `mtime()`. On an
  accepted low level it switches the LED off. The GPIO reads are a finite
  sequence of levels. `Debounce.AwaitStable` is the sampling loop.
  `Firmware.ButtonLoop` is the outer loop, proved equal to the specification
  function `Firmware.Edges`.
- **The firmware as a whole.** `Firmware.MainTimebase` covers `main`'s
  timebase calls (one start, then one read per rising edge) with any number of
  SysTick exceptions after each call. It proves that every read returns a value,
  so the `unwrap` in `main` never panics. The `j`-th value shown is the number of
  ticks delivered before it, and the values never decrease.

A panic (`panic!` or a failed `unwrap`) is modelled as an explicit
`Fail(fault)` outcome that leaves the cell unchanged. `Run` stops at the first
fault, as `panic_halt` stops the program.

The firmware's start takes no period: it fixes the SysTick reload at 16 000
(1 ms at 16 MHz), and that register setting is not modelled.

## Model

| member | source | states |
|---|---|---|
| Timebase.MTimeCell.constructor | examples/mtime.rs:107 | the cell starts empty |
| Timebase.MTimeCell.Mtime | examples/mtime.rs:109-122 | returns `None` exactly when the cell is empty, otherwise `Some` of the stored count; as a one-call `Run` it reads that value and leaves the cell unchanged |
| Timebase.MTimeCell.StartMTimeCounter | examples/mtime.rs:124-143 | on an empty cell, succeeds and installs a record with count 0 holding the given SysTick handle; on a filled cell, fails with a double-start fault and the existing record is neither reset nor replaced; agrees with a one-call `Run` |
| Timebase.MTimeCell.SysTick | examples/mtime.rs:145-156 | on a filled cell, adds exactly 1 to the count and keeps the SysTick handle; on an empty cell, fails with a tick-before-start fault and changes nothing; agrees with a one-call `Run` |
| Timebase.ReadCell | examples/mtime.rs:111-120 | the value read from a cell: `None` exactly when the cell is empty, otherwise `Some` of the stored count |
| Timebase.Run | examples/mtime.rs:109-156 | the meaning of a sequence of calls, each one critical section: a start fills an empty cell with count 0 and faults on a filled one; a tick adds one to a filled cell and faults on an empty one; a read records the cell's value and changes nothing; the first fault ends the run; there is one value per read |
| Timebase.ReadOnce | examples/mtime.rs:109-122 | a single read returns the read value of the cell and leaves the cell unchanged |
| Timebase.RunAppend | examples/mtime.rs:107-156 | running two call sequences in turn equals running their concatenation: when the first does not fault, the reads join and the second's fault, if any, is the result; when the first faults, the concatenation ends with that same fault |
| Timebase.RunTicks | examples/mtime.rs:150-155 | `n` ticks on a started timebase add exactly `n` to the count, keep the handle and read nothing |
| Timebase.NotStarted | examples/mtime.rs:107-122 | with no start, a call sequence runs without fault iff it has no tick; a fault is always tick-before-start; every read returns `None` (not zero, not an error) and the cell stays empty |
| Timebase.Running | examples/mtime.rs:124-156 | once started, a call sequence faults iff it contains a start, and then with a double start; otherwise the final count is the start count plus the number of ticks, the handle is kept, there is one value per read, every read is present and between the start and final counts, and reads never decrease |
| Timebase.StartTicksRead | examples/mtime.rs:124-156 | start, then `n` ticks, then a read returns exactly `Some(n)` |
| Timebase.ReadsDiffer | examples/mtime.rs:109-112 | two reads on a started timebase differ by exactly the number of ticks between them, if no start comes between them |
| Timebase.StartTicksReadTickRead | examples/mtime.rs:124-156 | start, `n` ticks, read, tick, read: the reads are `n` then `n + 1` |
| Timebase.ThousandTicks | examples/mtime.rs:124-156 | start, 1000 ticks, read gives 1000; one more tick, read gives 1001 |
| Debounce.Flip | examples/mtime.rs:73-81 | the expected level after an accepted edge differs from the one before |
| Debounce.RunAfter | examples/mtime.rs:62-68 | the run count after reading a stretch of samples: one more per matching sample, back to 0 on any other; it never exceeds the carried count plus the number of samples read |
| Debounce.RunAfterAtLeast | examples/mtime.rs:62-68 | the run count reaches `n` exactly when every sample read matched and, with the count carried in, makes `n`, or the last `n` samples all matched |
| Debounce.FirstReached | examples/mtime.rs:62-68 | a position it returns lies in the searched range and the debouncer has reached 50 consecutive matches there |
| Debounce.FirstReachedNoLater | examples/mtime.rs:62-68 | the search finds a position no later than any position that reaches 50 consecutive matches |
| Debounce.FirstReachedIsLeast | examples/mtime.rs:62-68 | the search returns the least position where 50 consecutive matches are reached, and `None` when there is none |
| Debounce.AwaitStable | examples/mtime.rs:62-68 | the sampling loop stops at the first position where 50 consecutive samples (counting the run carried in) equal the expected level, or reports `None` when the samples run out first; the expected level is unchanged and the run count ends at exactly 50; the 32-bit count never overflows |
| Debounce.ReachedFromRest | examples/mtime.rs:62-68 | with a run count of 0 carried in, 50 consecutive matches have been reached at `k` iff `k` is at least 50 samples on and the last 50 samples equal the expected level |
| Debounce.AcceptsFromRest | examples/mtime.rs:49-72 | entered with a run count of 0, as `main` always enters it (lines 51 and 72), the loop accepts at position `k` iff `k` is the first position at least 50 samples on where the last 50 samples equal the expected level |
| Firmware.EdgeEffects | examples/mtime.rs:72-81 | the reaction to an accepted level: LED off for Low; LED on, then show the time, for High; the time is shown iff the accepted level is High |
| Firmware.Edges | examples/mtime.rs:55-82 | everything the outer loop does over the samples from a position on: accept the first stable level, react, flip the expected level and continue; each accepted level costs at least 50 samples, so there are at most two reactions per 50 samples |
| Firmware.EdgesStep | examples/mtime.rs:72-81 | one pass of the outer loop: after an accepted level at `k`, the reactions so far, then this reaction, then the reactions from `k` on with the other level expected, are all the loop's reactions |
| Firmware.ButtonLoop | examples/mtime.rs:45-82 | the outer loop (starting with expected level High and count 0, resetting the count and flipping the level after each accepted edge) produces exactly the reactions of `Edges` |
| Firmware.EdgesAlternate | examples/mtime.rs:72-81 | the reactions follow the pattern LED on, show time, LED off, repeated, starting with LED on: the time is shown only right after an accepted high level |
| Firmware.TimebaseCalls | examples/mtime.rs:79 | the only timebase calls the reactions make are reads |
| Firmware.ReadThenTicks | examples/mtime.rs:109-112 | a read followed by `t` ticks returns the count before the ticks, and the calls after run on a count larger by `t` |
| Firmware.StartThenTicks | examples/mtime.rs:124-156 | a start followed by `t` ticks leaves a record whose count is `t` |
| Firmware.ReadsSeeTicks | examples/mtime.rs:109-112 | reads on a started timebase with ticks between them: read `j` returns the start count plus every tick delivered before it, and the final count adds all ticks |
| Firmware.MainTimebase | examples/mtime.rs:24-82 | the timebase calls of `main`, with any ticks after each call, never fault; there is one value per shown time; every value is present (so the `unwrap` never panics), values never decrease, the `j`-th is the number of ticks delivered before it, and the final count is the total number of ticks |

## Left out

- Timer and GPIO register programming (clock source, reload 16 000, counter and interrupt enable, RCC, MODER and ODR writes): hardware side effects. The SysTick handle is an opaque value `Syst` that the model only moves into the cell.
- `interrupt::free`, `Mutex` and `RefCell`: each critical section is one atomic method. Interrupt masking, preemption and `RefCell` borrow checks are not modelled.
- `Peripherals::take().unwrap()` in `main`: taking the peripheral singletons is platform bootstrap. The model starts from a fresh SysTick handle.
- Semihosting output (`hprintln!`, `dbg!`): console I/O. Showing the time is the effect `ShowMtime`, and `MainTimebase` states the value shown.
- Timebase.MTimeCell.SysTick: does not model 64-bit wrap-around of `count`, which is a `nat`. At one tick per millisecond, 2^64 ticks take about 584 million years.
- Firmware.ButtonLoop: the firmware samples the button forever. The model reads a finite sequence of samples and stops when it runs out, and `AwaitStable` then reports `None`.
- Firmware.MainTimebase: interrupts are placed between timebase calls, after each call. The debouncer never reads the time, so where ticks fall among the button samples changes nothing that the model observes.
- The other examples (`blinky.rs`, `hello.rs`, `crash.rs`, `panic.rs`) and `src/main.rs`: straight-line register writes, printing or deliberate faults, with no state to specify.
