/**
 * The `main` loop of examples/mtime.rs: start the timebase, then forever wait
 * for a debounced button level and react to it.  On an accepted low level the
 * user LED (PA5) is switched off; on an accepted high level it is switched on
 * and the current `mtime()` value is shown.  The expected level starts High
 * and flips after every accepted edge.
 */
module Firmware {
  import opened Wrappers
  import opened Debounce
  import opened Timebase

  /** What the loop does after accepting an edge. */
  datatype Effect = LedOff | LedOn | ShowMtime

  /** The reaction to an accepted level. */
  function EdgeEffects(state: Level): (r: seq<Effect>)
    ensures 1 <= |r| <= 2
    ensures r[0] == (if state == High then LedOn else LedOff)
    ensures ShowMtime in r <==> state == High
  {
    match state
    case Low => [LedOff]
    case High => assert [LedOn, ShowMtime][1] == ShowMtime; [LedOn, ShowMtime]
  }

  /** Everything the loop does from sample `from` on, expecting `state`, until
      the samples run out: find the first place where the debouncer accepts
      the level, react, flip the expected level, and go on from there. */
  function Edges(samples: seq<Level>, from: nat, state: Level): (r: seq<Effect>)
    requires from <= |samples|
    ensures 25 * |r| <= |samples| - from
    decreases |samples| - from
  {
    match FirstReached(samples, from, 0, state, from)
    case None => []
    case Some(k) => EdgeEffects(state) + Edges(samples, k, Flip(state))
  }

  /** One pass of the outer loop: when the level is accepted at `k`, what was
      done so far, then the reaction, then everything from `k` on with the
      other level expected, is everything the loop does. */
  lemma EdgesStep(samples: seq<Level>, from: nat, state: Level, k: nat, done: seq<Effect>)
    requires from <= |samples| && FirstReached(samples, from, 0, state, from) == Some(k)
    ensures done + Edges(samples, from, state) == (done + EdgeEffects(state)) + Edges(samples, k, Flip(state))
  {
    assert Edges(samples, from, state) == EdgeEffects(state) + Edges(samples, k, Flip(state));
    assert (done + EdgeEffects(state)) + Edges(samples, k, Flip(state))
      == done + (EdgeEffects(state) + Edges(samples, k, Flip(state)));
  }

  /** The outer `loop` of `main` over a finite stream of button samples. */
  method ButtonLoop(samples: seq<Level>) returns (effects: seq<Effect>)
    ensures effects == Edges(samples, 0, High)
  {
    var d := Debouncer(High, 0);
    var i := 0;
    effects := [];
    while true
      invariant i <= |samples| && d.count == 0
      invariant effects + Edges(samples, i, d.state) == Edges(samples, 0, High)
      decreases |samples| - i
    {
      var stop;
      ghost var expected := d.state;
      stop, d := AwaitStable(samples, i, d);
      if stop.None? {
        assert effects + [] == effects;
        return;
      }
      var k := stop.value;
      ghost var before := effects;
      d := d.(count := 0);
      if d.state == Low {
        effects := effects + [LedOff];
        d := d.(state := High);
      } else {
        effects := effects + [LedOn, ShowMtime];
        d := d.(state := Low);
      }
      assert effects == before + EdgeEffects(expected) && d.state == Flip(expected);
      EdgesStep(samples, i, expected, k, before);
      i := k;
    }
  }

  /** The repeating pattern of reactions: on, show, off, on, show, off, ... */
  function Cycle(n: nat): Effect
  {
    if n % 3 == 0 then LedOn else if n % 3 == 1 then ShowMtime else LedOff
  }

  /** Where in the pattern the loop is when it expects `state`. */
  function Phase(state: Level): nat
  {
    if state == High then 0 else 2
  }

  /** The reactions alternate: every LED-on is followed by showing the time,
      then by LED-off, and the first reaction of the firmware is LED-on. */
  lemma {:induction false} EdgesAlternate(samples: seq<Level>, from: nat, state: Level)
    requires from <= |samples|
    ensures forall j :: 0 <= j < |Edges(samples, from, state)| ==>
      Edges(samples, from, state)[j] == Cycle(j + Phase(state))
    decreases |samples| - from
  {
    match FirstReached(samples, from, 0, state, from)
    case None =>
    case Some(k) =>
      EdgesAlternate(samples, k, Flip(state));
      var head, rest := EdgeEffects(state), Edges(samples, k, Flip(state));
      forall j | 0 <= j < |head + rest| ensures (head + rest)[j] == Cycle(j + Phase(state)) {
        if j >= |head| {
          assert (head + rest)[j] == rest[j - |head|];
        }
      }
  }

  /** The timebase calls made by a sequence of reactions: one read per
      `ShowMtime`. */
  function TimebaseCalls(effects: seq<Effect>): (r: seq<Event>)
    ensures forall j :: 0 <= j < |r| ==> r[j] == Read
    decreases |effects|
  {
    if effects == [] then []
    else (if effects[0] == ShowMtime then [Read] else []) + TimebaseCalls(effects[1..])
  }

  /** The timebase calls `main` makes: one start, then the reads. */
  function MainCalls(samples: seq<Level>, syst: Syst): seq<Event>
  {
    [Start(syst)] + TimebaseCalls(Edges(samples, 0, High))
  }

  /** The calls interleaved with SysTick exceptions: `ticks[j]` of them
      arrive right after call `j`. None can arrive before the first call,
      since the exception is only enabled by the start. */
  function WithTicks(calls: seq<Event>, ticks: seq<nat>): seq<Event>
    requires |ticks| == |calls|
    decreases |calls|
  {
    if calls == [] then [] else [calls[0]] + (Ticks(ticks[0]) + WithTicks(calls[1..], ticks[1..]))
  }

  function Sum(s: seq<nat>): nat
    decreases |s|
  {
    if s == [] then 0 else s[0] + Sum(s[1..])
  }

  lemma SumSplit(s: seq<nat>, j: nat)
    requires 1 <= j <= |s|
    ensures Sum(s[..j]) == s[0] + Sum(s[1..][..j - 1])
  {
    assert s[..j][1..] == s[1..][..j - 1];
  }

  /** A read, then `t` ticks, then anything else: the read returns the count
      as it was, and the rest runs on a count larger by `t`. */
  lemma ReadThenTicks(m: MTime, t: nat, w: seq<Event>)
    ensures Run(Some(m), [Read] + (Ticks(t) + w)) ==
      match Run(Some(MTime(m.count + t, m.syst)), w)
      case Ok(tr) => Ok(Trace(tr.cell, [Some(m.count)] + tr.readings))
      case Err(f) => Err(f)
  {
    assert ([Read] + (Ticks(t) + w))[1..] == Ticks(t) + w;
    RunTicks(m, t);
    RunAppend(Some(m), Ticks(t), w);
    match Run(Some(MTime(m.count + t, m.syst)), w)
    case Ok(tr) => assert [] + tr.readings == tr.readings;
    case Err(_) =>
  }

  /** A start, then `t` ticks, then anything else: the rest runs on a fresh
      record whose count is `t`. */
  lemma StartThenTicks(syst: Syst, t: nat, w: seq<Event>)
    ensures Run(None, [Start(syst)] + (Ticks(t) + w)) == Run(Some(MTime(t, syst)), w)
  {
    assert ([Start(syst)] + (Ticks(t) + w))[1..] == Ticks(t) + w;
    RunTicks(MTime(0, syst), t);
    RunAppend(Some(MTime(0, syst)), Ticks(t), w);
    match Run(Some(MTime(t, syst)), w)
    case Ok(tr) => assert [] + tr.readings == tr.readings;
    case Err(_) =>
  }

  /** Reads on a running timebase, with ticks in between: read `j` returns the
      count at the start plus all the ticks delivered before it. */
  lemma {:induction false} ReadsSeeTicks(m: MTime, calls: seq<Event>, ticks: seq<nat>)
    requires |ticks| == |calls|
    requires forall j :: 0 <= j < |calls| ==> calls[j] == Read
    ensures var r := Run(Some(m), WithTicks(calls, ticks));
      r.Ok? && r.value.cell == Some(MTime(m.count + Sum(ticks), m.syst)) &&
      |r.value.readings| == |calls| &&
      forall j :: 0 <= j < |calls| ==> r.value.readings[j] == Some(m.count + Sum(ticks[..j]))
    decreases |calls|
  {
    if calls != [] {
      var m' := MTime(m.count + ticks[0], m.syst);
      var w := WithTicks(calls[1..], ticks[1..]);
      assert WithTicks(calls, ticks) == [Read] + (Ticks(ticks[0]) + w);
      ReadThenTicks(m, ticks[0], w);
      ReadsSeeTicks(m', calls[1..], ticks[1..]);
      var rest := Run(Some(m'), w).value.readings;
      var rs := [Some(m.count)] + rest;
      assert Run(Some(m), WithTicks(calls, ticks)).value.readings == rs;
      forall j | 0 <= j < |calls| ensures rs[j] == Some(m.count + Sum(ticks[..j])) {
        if j == 0 {
          assert ticks[..0] == [];
        } else {
          assert rs[j] == rest[j - 1];
          SumSplit(ticks, j);
        }
      }
    }
  }

  /** Whatever SysTick exceptions arrive while `main` runs, every `mtime()`
      it makes returns a value, so its `unwrap` never panics; the value shown
      at the `j`-th rising edge is the number of ticks delivered before it;
      the values shown never decrease; and the count in the cell is the total
      number of ticks. */
  lemma MainTimebase(samples: seq<Level>, syst: Syst, ticks: seq<nat>)
    requires |ticks| == |MainCalls(samples, syst)|
    ensures var r := Run(None, WithTicks(MainCalls(samples, syst), ticks));
      r.Ok? && r.value.cell == Some(MTime(Sum(ticks), syst)) &&
      |r.value.readings| == |TimebaseCalls(Edges(samples, 0, High))| &&
      PresentAndSorted(r.value.readings) &&
      forall j :: 0 <= j < |r.value.readings| ==> r.value.readings[j] == Some(Sum(ticks[..j + 1]))
  {
    var calls := MainCalls(samples, syst);
    var rcalls := calls[1..];
    assert rcalls == TimebaseCalls(Edges(samples, 0, High));
    var m := MTime(ticks[0], syst);
    var w := WithTicks(rcalls, ticks[1..]);
    assert WithTicks(calls, ticks) == [Start(syst)] + (Ticks(ticks[0]) + w);
    StartThenTicks(syst, ticks[0], w);
    ReadsSeeTicks(m, rcalls, ticks[1..]);
    Running(m, w);
    var rest := Run(Some(m), w).value.readings;
    forall j | 0 <= j < |rest| ensures rest[j] == Some(Sum(ticks[..j + 1])) {
      assert ticks[..j + 1][1..] == ticks[1..][..j];
    }
  }
}
