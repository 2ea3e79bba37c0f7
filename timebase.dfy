/**
 * The millisecond timebase of examples/mtime.rs.
 *
 * The process-wide cell `G_MTIME` holds either nothing (before the counter is
 * started) or one `MTime` record.  Every access runs inside one
 * `interrupt::free` critical section, so each operation is modelled as one
 * atomic step: `StartMTimeCounter`, the `SysTick` exception handler and the
 * `Mtime` read.  The class `MTimeCell` is the cell itself; the pure function
 * `Run` gives the meaning of any sequence of those three calls, and the lemmas
 * below state what the timebase guarantees about such sequences.
 */
module Timebase {
  import opened Wrappers

  /** The SysTick peripheral handle. Its registers are not modelled; `id` only
      lets the model say which handle was moved into the cell. */
  datatype Syst = Syst(id: nat)

  /** The record stored in the cell: the tick count and the owned SysTick handle. */
  datatype MTime = MTime(count: nat, syst: Syst)

  /** The two ways the timebase stops the program (a `panic!` and a failed `unwrap`). */
  datatype Fault = DoubleInit | TickBeforeStart

  /** One call into the timebase: a start, one SysTick exception, or one read. */
  datatype Event = Start(syst: Syst) | Tick | Read

  /** The cell after a sequence of calls, and what each read returned, in order. */
  datatype Trace = Trace(cell: Option<MTime>, readings: seq<Option<nat>>)

  /** What a read returns for a given cell content. */
  function ReadCell(cell: Option<MTime>): (r: Option<nat>)
    ensures r.None? <==> cell.None?
    ensures r.Some? ==> r.value == cell.value.count
  {
    match cell
    case None => None
    case Some(m) => Some(m.count)
  }

  /** The meaning of a sequence of calls, starting from `cell`: the final cell
      and the values read, or the first fault, after which nothing runs. */
  function Run(cell: Option<MTime>, events: seq<Event>): (r: Result<Trace, Fault>)
    ensures r.Ok? ==> |r.value.readings| == CountReads(events)
    decreases |events|
  {
    if events == [] then Ok(Trace(cell, []))
    else
      match events[0]
      case Start(s) =>
        if cell.None? then Run(Some(MTime(0, s)), events[1..]) else Err(DoubleInit)
      case Tick =>
        if cell.Some? then Run(Some(cell.value.(count := cell.value.count + 1)), events[1..])
        else Err(TickBeforeStart)
      case Read =>
        match Run(cell, events[1..])
        case Ok(t) => Ok(Trace(t.cell, [ReadCell(cell)] + t.readings))
        case Err(f) => Err(f)
  }

  /** `n` consecutive SysTick exceptions. */
  function Ticks(n: nat): (r: seq<Event>)
    ensures |r| == n
    ensures forall j :: 0 <= j < n ==> r[j] == Tick
  {
    seq(n, _ => Tick)
  }

  /** The number of SysTick exceptions in a sequence of calls. */
  function CountTicks(events: seq<Event>): nat
    decreases |events|
  {
    if events == [] then 0 else (if events[0].Tick? then 1 else 0) + CountTicks(events[1..])
  }

  /** The number of reads in a sequence of calls. */
  function CountReads(events: seq<Event>): nat
    decreases |events|
  {
    if events == [] then 0 else (if events[0].Read? then 1 else 0) + CountReads(events[1..])
  }

  predicate NoStart(events: seq<Event>)
  {
    forall j :: 0 <= j < |events| ==> !events[j].Start?
  }

  predicate NoTick(events: seq<Event>)
  {
    forall j :: 0 <= j < |events| ==> !events[j].Tick?
  }

  /** Every value read is present and the values never decrease. */
  predicate PresentAndSorted(readings: seq<Option<nat>>)
  {
    (forall j :: 0 <= j < |readings| ==> readings[j].Some?) &&
    (forall i, j :: 0 <= i <= j < |readings| ==> readings[i].Some? && readings[j].Some? && readings[i].value <= readings[j].value)
  }

  /** The cell `G_MTIME`, with the three operations that touch it. */
  class MTimeCell {
    var cell: Option<MTime>

    /** The static initialiser: the cell starts empty. */
    constructor ()
      ensures cell == None
    {
      cell := None;
    }

    /** `mtime()`: the current count, or `None` before the counter is started.
        Reading never changes the cell. */
    function Mtime(): (r: Option<nat>)
      reads this
      ensures r.None? <==> cell.None?
      ensures r.Some? ==> r.value == cell.value.count
      ensures Run(cell, [Read]) == Ok(Trace(cell, [r]))
    {
      ReadOnce(cell);
      ReadCell(cell)
    }

    /** `start_mtime_counter(syst)`: on an empty cell, moves `syst` into a new
        record with count 0; on a filled cell it panics and the existing record
        is neither reset nor replaced. */
    method StartMTimeCounter(syst: Syst) returns (status: Outcome<Fault>)
      modifies this
      ensures old(cell).None? ==> status == Pass && cell == Some(MTime(0, syst))
      ensures old(cell).Some? ==> status == Fail(DoubleInit) && cell == old(cell)
      ensures Run(old(cell), [Start(syst)]) == if status.Pass? then Ok(Trace(cell, [])) else Err(status.error)
    {
      match cell
      case None =>
        cell := Some(MTime(0, syst));
        status := Pass;
      case Some(_) =>
        status := Fail(DoubleInit);
    }

    /** The SysTick exception handler: adds exactly one to the count and keeps
        the SysTick handle; fails (the `unwrap`) when the cell is empty. */
    method SysTick() returns (status: Outcome<Fault>)
      modifies this
      ensures old(cell).Some? ==> status == Pass && cell == Some(MTime(old(cell).value.count + 1, old(cell).value.syst))
      ensures old(cell).None? ==> status == Fail(TickBeforeStart) && cell == old(cell)
      ensures Run(old(cell), [Tick]) == if status.Pass? then Ok(Trace(cell, [])) else Err(status.error)
    {
      match cell
      case None =>
        status := Fail(TickBeforeStart);
      case Some(m) =>
        cell := Some(m.(count := m.count + 1));
        status := Pass;
    }
  }

  /** A single read returns the count and leaves the cell as it is. */
  lemma ReadOnce(cell: Option<MTime>)
    ensures Run(cell, [Read]) == Ok(Trace(cell, [ReadCell(cell)]))
  {
    assert [Read][1..] == [];
    assert Run(cell, []) == Ok(Trace(cell, []));
    assert [ReadCell(cell)] + [] == [ReadCell(cell)];
  }

  /** Running two sequences one after the other is running their
      concatenation: the reads join, and the first fault wins, so a fault in
      the first sequence ends the run before the second starts. */
  lemma {:induction false} RunAppend(cell: Option<MTime>, a: seq<Event>, b: seq<Event>)
    ensures Run(cell, a).Err? ==> Run(cell, a + b) == Run(cell, a)
    ensures Run(cell, a).Ok? ==> (
      Run(cell, a + b) ==
        match Run(Run(cell, a).value.cell, b)
        case Ok(t) => Ok(Trace(t.cell, Run(cell, a).value.readings + t.readings))
        case Err(f) => Err(f))
    decreases |a|
  {
    if a == [] {
      assert a + b == b;
      match Run(cell, b)
      case Ok(t) => assert [] + t.readings == t.readings;
      case Err(_) =>
    } else {
      assert (a + b)[0] == a[0];
      assert (a + b)[1..] == a[1..] + b;
      match a[0]
      case Start(s) =>
        if cell.None? { RunAppend(Some(MTime(0, s)), a[1..], b); }
      case Tick =>
        if cell.Some? { RunAppend(Some(cell.value.(count := cell.value.count + 1)), a[1..], b); }
      case Read =>
        RunAppend(cell, a[1..], b);
        if Run(cell, a[1..]).Ok? {
          var ra := Run(cell, a[1..]).value;
          match Run(ra.cell, b)
          case Ok(t) => assert [ReadCell(cell)] + (ra.readings + t.readings) == ([ReadCell(cell)] + ra.readings) + t.readings;
          case Err(_) =>
        }
    }
  }

  /** `n` ticks on a running timebase add `n` to the count and read nothing. */
  lemma {:induction false} RunTicks(m: MTime, n: nat)
    ensures Run(Some(m), Ticks(n)) == Ok(Trace(Some(MTime(m.count + n, m.syst)), []))
    decreases n
  {
    if n > 0 {
      assert Ticks(n)[1..] == Ticks(n - 1);
      RunTicks(m.(count := m.count + 1), n - 1);
    }
  }

  /** Before any start, a read returns `None` (a normal result), a tick is
      fatal, and the cell stays empty. */
  lemma {:induction false} NotStarted(events: seq<Event>)
    requires NoStart(events)
    ensures Run(None, events).Ok? <==> NoTick(events)
    ensures Run(None, events).Err? ==> Run(None, events).error == TickBeforeStart
    ensures Run(None, events).Ok? ==>
      Run(None, events).value.cell == None &&
      |Run(None, events).value.readings| == CountReads(events) &&
      forall j :: 0 <= j < |Run(None, events).value.readings| ==> Run(None, events).value.readings[j] == None
    decreases |events|
  {
    if events != [] {
      assert NoStart(events[1..]) by {
        forall j | 0 <= j < |events[1..]| ensures !events[1..][j].Start? {
          assert events[1..][j] == events[j + 1];
        }
      }
      NotStarted(events[1..]);
      if NoTick(events[1..]) && !events[0].Tick? {
        forall j | 0 <= j < |events| ensures !events[j].Tick? {
          if j > 0 { assert events[j] == events[1..][j - 1]; }
        }
      }
      if NoTick(events) {
        assert !events[0].Tick?;
        assert NoTick(events[1..]) by {
          forall j | 0 <= j < |events[1..]| ensures !events[1..][j].Tick? {
            assert events[1..][j] == events[j + 1];
          }
        }
      }
    }
  }

  /** Once started, the timebase never faults unless started again (and then it
      always faults with a double start); the count only grows, by exactly one
      per tick; the SysTick handle is kept; every read returns a value between
      the count at the beginning and the count at the end, and successive reads
      never decrease. */
  lemma {:induction false} Running(m: MTime, events: seq<Event>)
    ensures Run(Some(m), events).Ok? <==> NoStart(events)
    ensures Run(Some(m), events).Err? ==> Run(Some(m), events).error == DoubleInit
    ensures Run(Some(m), events).Ok? ==>
      var t := Run(Some(m), events).value;
      t.cell == Some(MTime(m.count + CountTicks(events), m.syst)) &&
      |t.readings| == CountReads(events) &&
      PresentAndSorted(t.readings) &&
      forall j :: 0 <= j < |t.readings| ==> m.count <= t.readings[j].value <= m.count + CountTicks(events)
    decreases |events|
  {
    if events != [] {
      var m' := if events[0].Tick? then m.(count := m.count + 1) else m;
      Running(m', events[1..]);
      assert NoStart(events) <==> !events[0].Start? && NoStart(events[1..]) by {
        if NoStart(events) {
          forall j | 0 <= j < |events[1..]| ensures !events[1..][j].Start? {
            assert events[1..][j] == events[j + 1];
          }
        }
        if !events[0].Start? && NoStart(events[1..]) {
          forall j | 0 <= j < |events| ensures !events[j].Start? {
            if j > 0 { assert events[j] == events[1..][j - 1]; }
          }
        }
      }
      if events[0].Read? && Run(Some(m), events).Ok? {
        var rest := Run(Some(m), events[1..]).value.readings;
        var rs := [Some(m.count)] + rest;
        assert Run(Some(m), events).value.readings == rs;
        forall i, j | 0 <= i <= j < |rs|
          ensures rs[i].Some? && rs[j].Some? && rs[i].value <= rs[j].value
        {
          if i > 0 { assert rs[i] == rest[i - 1]; }
          if j > 0 { assert rs[j] == rest[j - 1]; }
        }
        forall j | 0 <= j < |rs| ensures m.count <= rs[j].value <= m.count + CountTicks(events) {
          if j > 0 { assert rs[j] == rest[j - 1]; }
        }
      }
    }
  }

  /** Tick fidelity: start, then `n` ticks, then a read, returns exactly `n`. */
  lemma StartTicksRead(s: Syst, n: nat)
    ensures Run(None, [Start(s)] + Ticks(n) + [Read]) == Ok(Trace(Some(MTime(n, s)), [Some(n)]))
  {
    var e := [Start(s)] + Ticks(n) + [Read];
    assert e[1..] == Ticks(n) + [Read];
    RunTicks(MTime(0, s), n);
    RunAppend(Some(MTime(0, s)), Ticks(n), [Read]);
    ReadOnce(Some(MTime(n, s)));
    assert [] + [Some(n)] == [Some(n)];
  }

  /** Between two reads, the value read grows by exactly the number of ticks
      delivered in between, as long as nobody starts the counter again. */
  lemma ReadsDiffer(m: MTime, between: seq<Event>)
    requires NoStart(between)
    ensures var r := Run(Some(m), [Read] + between + [Read]);
      r.Ok? && |r.value.readings| >= 2 &&
      r.value.readings[0] == Some(m.count) &&
      r.value.readings[|r.value.readings| - 1] == Some(m.count + CountTicks(between))
  {
    var e := [Read] + between + [Read];
    assert e[1..] == between + [Read];
    Running(m, between);
    var t := Run(Some(m), between).value;
    RunAppend(Some(m), between, [Read]);
    ReadOnce(t.cell);
  }

  /** Start, `n` ticks, read, one more tick, read: the reads are `n` then `n + 1`. */
  lemma StartTicksReadTickRead(s: Syst, n: nat)
    ensures Run(None, [Start(s)] + Ticks(n) + [Read, Tick, Read]) ==
      Ok(Trace(Some(MTime(n + 1, s)), [Some(n), Some(n + 1)]))
  {
    var e := [Start(s)] + Ticks(n) + [Read, Tick, Read];
    assert e[1..] == Ticks(n) + [Read, Tick, Read];
    RunTicks(MTime(0, s), n);
    RunAppend(Some(MTime(0, s)), Ticks(n), [Read, Tick, Read]);
    assert [Read, Tick, Read][1..] == [Tick, Read];
    assert [Tick, Read][1..] == [Read];
    ReadOnce(Some(MTime(n + 1, s)));
    assert Run(Some(MTime(n, s)), [Tick, Read]) == Run(Some(MTime(n + 1, s)), [Read]);
    assert [Some(n)] + [Some(n + 1)] == [Some(n), Some(n + 1)];
    assert Run(Some(MTime(n, s)), [Read, Tick, Read]) == Ok(Trace(Some(MTime(n + 1, s)), [Some(n), Some(n + 1)]));
    assert [] + [Some(n), Some(n + 1)] == [Some(n), Some(n + 1)];
  }

  /** The scenario: start, 1000 ticks, read 1000; one more tick, read 1001. */
  lemma ThousandTicks(s: Syst)
    ensures Run(None, [Start(s)] + Ticks(1000) + [Read, Tick, Read]) ==
      Ok(Trace(Some(MTime(1001, s)), [Some(1000), Some(1001)]))
  {
    StartTicksReadTickRead(s, 1000);
  }
}
