/**
 * The button debouncer of `main` in examples/mtime.rs.
 *
 * The firmware reads the level of the user button (PC13) in a busy loop and
 * accepts a level only after 50 consecutive samples equal the level it
 * expects; any other sample resets the run count to 0.  Here the GPIO reads
 * are a finite sequence of levels, and a sampling pass that runs out of
 * samples before the run is complete reports that nothing was accepted.
 */
module Debounce {
  import opened Wrappers

  /** Rust's `u32`, the type of the run count. */
  newtype u32 = x: int | 0 <= x < 0x1_0000_0000

  /** The level read from the input data register (`IDR0_A`). */
  datatype Level = Low | High

  /** The local `Debouncer` record: the level expected next and the length of
      the current run of samples equal to it. */
  datatype Debouncer = Debouncer(state: Level, count: u32)

  /** The number of consecutive matching samples needed to accept a level. */
  const Threshold: u32 := 50

  /** The other level. */
  function Flip(l: Level): (r: Level)
    ensures r != l
  {
    if l == Low then High else Low
  }

  /** Every sample in `samples[lo..hi]` equals `e`. */
  predicate Matches(samples: seq<Level>, lo: nat, hi: nat, e: Level)
    requires lo <= hi <= |samples|
  {
    forall j :: lo <= j < hi ==> samples[j] == e
  }

  /** After reading `samples[from..k]`, having started with run count `c`,
      the debouncer has seen `Threshold` consecutive samples equal to `e`:
      either every sample read matched and, together with the run carried in,
      they make `Threshold`, or the last `Threshold` samples read all matched. */
  predicate Reached(samples: seq<Level>, from: nat, c: u32, e: Level, k: nat)
    requires from <= k <= |samples|
  {
    (Matches(samples, from, k, e) && c as int + (k - from) >= Threshold as int) ||
    (k - from >= Threshold as int && Matches(samples, k - Threshold as int, k, e))
  }

  /** The run count after reading `samples[from..i]` from count `c`, with one
      more for each matching sample and back to 0 on each other one. */
  function RunAfter(samples: seq<Level>, from: nat, i: nat, e: Level, c: nat): (r: nat)
    requires from <= i <= |samples|
    ensures r <= c + (i - from)
    decreases i - from
  {
    if i == from then c
    else if samples[i - 1] == e then RunAfter(samples, from, i - 1, e, c) + 1
    else 0
  }

  /** The run count reaches `n` exactly when all samples read matched and make
      `n` with the carried run, or the last `n` samples matched. */
  lemma {:induction false} RunAfterAtLeast(samples: seq<Level>, from: nat, i: nat, e: Level, c: nat, n: nat)
    requires from <= i <= |samples|
    ensures RunAfter(samples, from, i, e, c) >= n <==>
      (Matches(samples, from, i, e) && c + (i - from) >= n) ||
      (i - from >= n && Matches(samples, i - n, i, e))
    decreases i - from
  {
    if i > from {
      if samples[i - 1] == e {
        if n > 0 {
          RunAfterAtLeast(samples, from, i - 1, e, c, n - 1);
          assert Matches(samples, from, i, e) <==> Matches(samples, from, i - 1, e);
          assert i - from >= n ==> (Matches(samples, i - n, i, e) <==> Matches(samples, i - n, i - 1, e));
        } else {
          assert Matches(samples, i, i, e);
        }
      } else {
        assert !Matches(samples, from, i, e) by { assert samples[i - 1] != e; }
        if n > 0 && i - from >= n {
          assert !Matches(samples, i - n, i, e) by { assert samples[i - 1] != e; }
        }
        if n == 0 { assert Matches(samples, i, i, e); }
      }
    } else {
      assert Matches(samples, from, from, e);
    }
  }

  /** The first position, at or after `k`, where the debouncer has reached
      `Threshold`; `None` if it never does within `samples`. */
  function FirstReached(samples: seq<Level>, from: nat, c: u32, e: Level, k: nat): (r: Option<nat>)
    requires from <= k
    ensures r.Some? ==> k <= r.value <= |samples| && Reached(samples, from, c, e, r.value)
    decreases |samples| + 1 - k
  {
    if k > |samples| then None
    else if Reached(samples, from, c, e, k) then Some(k)
    else FirstReached(samples, from, c, e, k + 1)
  }

  /** No position at or after `k` that reaches the threshold comes before
      the one `FirstReached` returns. */
  lemma {:induction false} FirstReachedNoLater(samples: seq<Level>, from: nat, c: u32, e: Level, k: nat, j: nat)
    requires from <= k <= j <= |samples| && Reached(samples, from, c, e, j)
    ensures FirstReached(samples, from, c, e, k).Some? && FirstReached(samples, from, c, e, k).value <= j
    decreases j - k
  {
    if !Reached(samples, from, c, e, k) {
      FirstReachedNoLater(samples, from, c, e, k + 1, j);
    }
  }

  /** `FirstReached` is the least position that reaches the threshold. */
  lemma {:induction false} FirstReachedIsLeast(samples: seq<Level>, from: nat, c: u32, e: Level, k: nat, stop: Option<nat>)
    requires from <= k
    requires stop.Some? ==> k <= stop.value <= |samples| && Reached(samples, from, c, e, stop.value)
    requires forall j :: k <= j <= |samples| && (stop.None? || j < stop.value) ==> !Reached(samples, from, c, e, j)
    ensures FirstReached(samples, from, c, e, k) == stop
    decreases |samples| + 1 - k
  {
    if k <= |samples| && !(stop.Some? && stop.value == k) {
      FirstReachedIsLeast(samples, from, c, e, k + 1, stop);
    }
  }

  /** The sampling loop: reads samples from position `from` on, counting the
      run of samples equal to `d.state`, until the run reaches `Threshold`.
      Returns the position after the last sample read, or `None` when the
      samples run out first, and the debouncer as the loop leaves it. */
  method AwaitStable(samples: seq<Level>, from: nat, d: Debouncer) returns (stop: Option<nat>, d': Debouncer)
    requires from <= |samples|
    ensures d'.state == d.state
    ensures stop.Some? ==>
      from <= stop.value <= |samples| &&
      Reached(samples, from, d.count, d.state, stop.value) &&
      d'.count >= Threshold && (d.count < Threshold ==> d'.count == Threshold)
    ensures forall k :: from <= k <= |samples| && (stop.None? || k < stop.value) ==>
      !Reached(samples, from, d.count, d.state, k)
    ensures stop == FirstReached(samples, from, d.count, d.state, from)
  {
    var i := from;
    d' := d;
    while d'.count < Threshold
      invariant from <= i <= |samples| && d'.state == d.state
      invariant d'.count as nat == RunAfter(samples, from, i, d.state, d.count as nat)
      invariant d.count < Threshold ==> d'.count <= Threshold
      invariant d.count >= Threshold ==> d' == d
      invariant forall k :: from <= k < i ==> !Reached(samples, from, d.count, d.state, k)
      decreases |samples| - i
    {
      RunAfterAtLeast(samples, from, i, d.state, d.count as nat, Threshold as nat);
      if i == |samples| {
        stop := None;
        FirstReachedIsLeast(samples, from, d.count, d.state, from, stop);
        return;
      }
      if samples[i] == d'.state {
        d' := d'.(count := d'.count + 1);
      } else {
        d' := d'.(count := 0);
      }
      i := i + 1;
    }
    RunAfterAtLeast(samples, from, i, d.state, d.count as nat, Threshold as nat);
    stop := Some(i);
    FirstReachedIsLeast(samples, from, d.count, d.state, from, stop);
  }

  /** The `Threshold` samples just before position `k` all equal `e`. */
  predicate LastMatch(samples: seq<Level>, e: Level, k: nat)
  {
    Threshold as int <= k <= |samples| && Matches(samples, k - Threshold as int, k, e)
  }

  /** Entered with an empty run, 50 consecutive matches have been reached at
      `k` exactly when `k` is at least 50 samples on and the last 50 samples
      equal the expected level. */
  lemma ReachedFromRest(samples: seq<Level>, from: nat, e: Level, k: nat)
    requires from <= k <= |samples|
    ensures Reached(samples, from, 0, e, k) <==> k >= from + Threshold as int && LastMatch(samples, e, k)
  {
  }

  /** Entered with an empty run, as the firmware always enters it, the loop
      accepts the level at position `k` exactly when `k` is the first position
      at least 50 samples on where the last 50 samples equal that level. */
  lemma AcceptsFromRest(samples: seq<Level>, from: nat, e: Level, k: nat)
    requires from <= |samples|
    ensures FirstReached(samples, from, 0, e, from) == Some(k) <==>
      from + Threshold as int <= k && LastMatch(samples, e, k) &&
      forall j :: from + Threshold as int <= j < k ==> !LastMatch(samples, e, j)
  {
    var r := FirstReached(samples, from, 0, e, from);
    if r == Some(k) {
      ReachedFromRest(samples, from, e, k);
      forall j | from + Threshold as int <= j < k ensures !LastMatch(samples, e, j) {
        ReachedFromRest(samples, from, e, j);
        if LastMatch(samples, e, j) { FirstReachedNoLater(samples, from, 0, e, from, j); }
      }
    }
    if from + Threshold as int <= k && LastMatch(samples, e, k) &&
       forall j :: from + Threshold as int <= j < k ==> !LastMatch(samples, e, j)
    {
      ReachedFromRest(samples, from, e, k);
      forall j | from <= j <= |samples| && j < k ensures !Reached(samples, from, 0, e, j) {
        ReachedFromRest(samples, from, e, j);
      }
      FirstReachedIsLeast(samples, from, 0, e, from, Some(k));
    }
  }
}
