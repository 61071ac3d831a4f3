/** Blocking delays on a free-running microsecond counter of 64 bits that wraps around. The
    times of successive readings are given as a sequence; what the code sees of each is its
    value modulo 2^64, read at once. */
module Delay {
  import opened Wrappers

  const U64 := 0x1_0000_0000_0000_0000
  const U64_HALF := 0x7fff_ffff_ffff_ffff
  const U32_MAX := 0xffff_ffff

  predicate Clock(times: seq<nat>)
  {
    forall i, k :: 0 <= i < k < |times| ==> times[i] <= times[k]
  }

  function Reading(time: nat): nat
  {
    time % U64
  }

  function Epoch(time: nat): nat
  {
    time / U64
  }

  lemma Parts(time: nat)
    ensures time == U64 * Epoch(time) + Reading(time) && Reading(time) < U64
  {
  }

  lemma LaterEpoch(a: nat, b: nat)
    requires a <= b
    ensures Epoch(a) <= Epoch(b)
  {
    Parts(a);
    Parts(b);
  }

  /** The reading shows that the time has come: at least `micros` have passed, and not so many
      that the counter has been all the way round. */
  predicate Due(start: nat, time: nat, micros: nat)
  {
    start + micros <= time < start + U64
  }

  /** Nothing from reading `from` up to reading `to` was due. */
  predicate NoneDue(times: seq<nat>, from: nat, to: nat, micros: nat)
  {
    forall m :: from < m < to && m < |times| ==> !Due(times[from], times[m], micros)
  }

  // ----- The three ways to wait ------------------------------------------------------

  /** No wrap-around: what leaving the loop means, and what staying in it means. */
  lemma Straight(start: nat, time: nat, micros: nat)
    requires start <= time && Reading(start) + micros < U64
    ensures var now, s := Reading(time), Reading(start);
            && (!(s <= now < s + micros) ==> start + micros <= time)
            && (s <= now < s + micros ==> !Due(start, time, micros))
  {
    hide Reading, Epoch;
    Parts(start);
    Parts(time);
    LaterEpoch(start, time);
    SameOrNext(Epoch(start), Epoch(time));
  }

  /** Epochs either agree, are neighbours, or are further apart. */
  lemma SameOrNext(a: nat, b: nat)
    requires a <= b
    ensures a == b || U64 * b == U64 * a + U64 || U64 * b >= U64 * a + 2 * U64
  {
    if b == a + 1 {
      assert U64 * b == U64 * a + U64;
    } else if b > a + 1 {
      assert b >= a + 2;
    }
  }

  /** Wrap-around: a reading in between the end and the start is one after the zero. */
  lemma Wrapped(start: nat, time: nat, micros: nat)
    requires start <= time && micros < U64 <= Reading(start) + micros
    ensures var now, s, end := Reading(time), Reading(start), Reading(start) + micros - U64;
            && (!(now >= s || now < end) ==> start + micros <= time)
            && (now >= s || now < end ==> !Due(start, time, micros))
            && (now < s ==> Epoch(start) < Epoch(time))
            && (Epoch(start) < Epoch(time) && now >= end ==> start + micros <= time)
            && (Epoch(start) + 1 < Epoch(time) ==> start + micros <= time)
  {
    hide Reading, Epoch;
    Parts(start);
    Parts(time);
    LaterEpoch(start, time);
    SameOrNext(Epoch(start), Epoch(time));
  }

  /** Waits from reading `from` on; the reading at which it returned, or none if it has used
      up the readings. It never returns early, and returns at the first reading that is due. */
  method DelayMicros(times: seq<nat>, from: nat, micros: nat) returns (r: Option<nat>)
    requires Clock(times) && from < |times| && micros < U64
    ensures r.Some? ==> from < r.value < |times| && times[from] + micros <= times[r.value]
    ensures NoneDue(times, from, if r.Some? then r.value else |times|, micros)
  {
    hide Reading, Epoch;
    var start := Reading(times[from]);
    Parts(times[from]);
    var end := (start + micros) % U64;
    if end < start {
      if micros > U32_MAX {
        r := WaitLong(times, from, micros, start, end);
      } else {
        var i: nat := from + 1;
        while i < |times|
          invariant from < i <= |times| && NoneDue(times, from, i, micros)
        {
          var now := Reading(times[i]);
          Wrapped(times[from], times[i], micros);
          if !(now >= start || now < end) {
            return Some(i);
          }
          i := i + 1;
        }
        r := None;
      }
    } else {
      var i: nat := from + 1;
      while i < |times|
        invariant from < i <= |times| && NoneDue(times, from, i, micros)
      {
        var now := Reading(times[i]);
        Straight(times[from], times[i], micros);
        if !(start <= now < end) {
          return Some(i);
        }
        i := i + 1;
      }
      r := None;
    }
  }

  /** The wait that may pass both zero and the middle of the range. */
  method WaitLong(times: seq<nat>, from: nat, micros: nat, start: nat, end: nat) returns (r: Option<nat>)
    requires Clock(times) && from < |times| && micros < U64
    requires start == Reading(times[from]) && U64 <= start + micros && end == start + micros - U64
    ensures r.Some? ==> from < r.value < |times| && times[from] + micros <= times[r.value]
    ensures NoneDue(times, from, if r.Some? then r.value else |times|, micros)
  {
    hide Reading, Epoch;
    var passedZero, passedHalf := false, false;
    var i: nat := from + 1;
    ghost var zeroAt, halfAt := from, from;
    while i < |times|
      invariant from < i <= |times| && NoneDue(times, from, i, micros)
      invariant from <= zeroAt < i && from <= halfAt < i
      invariant passedZero ==> Epoch(times[from]) < Epoch(times[zeroAt])
      invariant passedHalf ==> passedZero && Epoch(times[from]) < Epoch(times[halfAt]) && Reading(times[halfAt]) >= U64_HALF
    {
      var now := Reading(times[i]);
      Wrapped(times[from], times[i], micros);
      LaterEpoch(times[zeroAt], times[i]);
      if now < start && !passedZero {
        passedZero := true;
        zeroAt := i;
      }
      if passedZero && now >= U64_HALF && !passedHalf {
        passedHalf := true;
        halfAt := i;
      }
      if (passedZero && now >= end) || (passedHalf && now < U64_HALF) {
        if passedHalf && now < U64_HALF {
          WentRound(times[halfAt], times[i]);
        }
        return Some(i);
      }
      i := i + 1;
    }
    r := None;
  }

  /** A smaller reading at a later time is one of a later epoch. */
  lemma WentRound(a: nat, b: nat)
    requires a <= b && Reading(b) < Reading(a)
    ensures Epoch(a) < Epoch(b)
  {
    hide Reading, Epoch;
    Parts(a);
    Parts(b);
    LaterEpoch(a, b);
  }

  // ----- Milliseconds ----------------------------------------------------------------

  const MAX_MILLIS_PER_STEP := (U64 - 1) / 1000
  const SATURATE_TO_MICROS := MAX_MILLIS_PER_STEP * 1000

  /** No reading comes more than `gap` after the one before. */
  predicate Dense(times: seq<nat>, gap: nat)
  {
    forall i :: 0 < i < |times| ==> times[i] <= times[i - 1] + gap
  }

  /** Readings that follow close enough on each other do not miss the moment. */
  lemma {:induction false} NotYet(times: seq<nat>, from: nat, k: nat, micros: nat, gap: nat)
    requires Clock(times) && Dense(times, gap) && micros + gap < U64
    requires from < k <= |times| && NoneDue(times, from, k, micros)
    ensures times[k - 1] < times[from] + micros || k == from + 1
  {
    if k > from + 1 {
      NotYet(times, from, k - 1, micros, gap);
      assert !Due(times[from], times[k - 1], micros);
      assert times[k - 1] <= times[k - 2] + gap;
    }
  }

  lemma Prompt(times: seq<nat>, from: nat, k: nat, micros: nat, gap: nat)
    requires Clock(times) && Dense(times, gap) && micros + gap < U64
    requires from < k < |times| && NoneDue(times, from, k, micros)
    ensures times[k] <= times[from] + micros + gap
  {
    NotYet(times, from, k, micros, gap);
    assert times[k] <= times[k - 1] + gap;
  }

  /** A wait that the readings do not outlast, or only just. */
  lemma Outlasted(times: seq<nat>, from: nat, r: Option<nat>, micros: nat, gap: nat)
    requires Clock(times) && Dense(times, gap) && micros + gap < U64 && from < |times|
    requires NoneDue(times, from, if r.Some? then r.value else |times|, micros)
    requires r.Some? ==> from < r.value == |times| - 1
    ensures times[|times| - 1] <= times[from] + micros + gap
  {
    match r {
      case None => NotYet(times, from, |times|, micros, gap);
      case Some(k) => Prompt(times, from, k, micros, gap);
    }
  }

  /** How late a delay that takes so many steps can be. */
  function Slack(gap: nat, steps: nat): nat
  {
    gap * (2 * steps + 1)
  }

  lemma SlackGrows(gap: nat, a: nat, b: nat)
    requires a <= b
    ensures Slack(gap, a) <= Slack(gap, b) && Slack(gap, a + 1) == Slack(gap, a) + 2 * gap
  {
    assert gap * (2 * b + 1) == gap * (2 * a + 1) + gap * (2 * (b - a));
    assert gap * (2 * (a + 1) + 1) == gap * (2 * a + 1) + 2 * gap;
  }

  /** Splits the delay into steps that fit; together they last at least as long as asked, and,
      when readings follow each other by at most `gap`, no longer than two gaps more for each
      step: readings that go on for longer than that see it return. A delay of one step also
      returns at the first reading that is due, however far apart they are. */
  method DelayMillis(times: seq<nat>, millis: nat, ghost gap: nat) returns (r: Option<nat>)
    requires Clock(times) && |times| > 0 && millis < U64
    ensures r.Some? ==> r.value < |times| && times[0] + 1000 * millis <= times[r.value]
    ensures r.Some? && Dense(times, gap) && gap < U64 - SATURATE_TO_MICROS ==>
              times[r.value] <= times[0] + 1000 * millis + Slack(gap, millis / MAX_MILLIS_PER_STEP)
    ensures r.None? && Dense(times, gap) && gap < U64 - SATURATE_TO_MICROS ==>
              times[|times| - 1] <= times[0] + 1000 * millis + Slack(gap, millis / MAX_MILLIS_PER_STEP)
    ensures millis <= MAX_MILLIS_PER_STEP ==> NoneDue(times, 0, if r.Some? then r.value else |times|, 1000 * millis)
  {
    hide Dense, Slack;
    ghost var dense := Dense(times, gap) && gap < U64 - SATURATE_TO_MICROS;
    var left, at: nat := millis, 0;
    ghost var steps: nat := 0;
    SlackStart(gap);
    while left > MAX_MILLIS_PER_STEP
      invariant at < |times| && 0 <= left <= millis && left + steps * MAX_MILLIS_PER_STEP == millis
      invariant if steps == 0 then at == 0 else left > 0
      invariant times[0] + 1000 * (millis - left) <= times[at]
      invariant dense ==> times[at] + gap <= times[0] + 1000 * (millis - left) + Slack(gap, steps)
    {
      var step := DelayMicros(times, at, SATURATE_TO_MICROS);
      if step == None || step.value + 1 >= |times| {
        if dense {
          Outlasted(times, at, step, SATURATE_TO_MICROS, gap);
          StepsBound(steps, millis);
          SlackGrows(gap, steps, millis / MAX_MILLIS_PER_STEP);
        }
        return None;
      }
      assert times[step.value] <= times[step.value + 1];
      if dense {
        Prompt(times, at, step.value, SATURATE_TO_MICROS, gap);
        DenseAt(times, step.value + 1, gap);
        SlackGrows(gap, steps, steps);
      }
      left, at, steps := left - MAX_MILLIS_PER_STEP, step.value + 1, steps + 1;
    }
    r := DelayMicros(times, at, left * 1000);
    if dense {
      if r == None {
        Outlasted(times, at, r, left * 1000, gap);
      } else {
        Prompt(times, at, r.value, left * 1000, gap);
      }
      StepsBound(steps, millis);
      SlackGrows(gap, steps, millis / MAX_MILLIS_PER_STEP);
    }
  }

  lemma SlackStart(gap: nat)
    ensures Slack(gap, 0) == gap
  {
  }

  lemma DenseAt(times: seq<nat>, i: nat, gap: nat)
    requires Dense(times, gap) && 0 < i < |times|
    ensures times[i] <= times[i - 1] + gap
  {
  }

  lemma StepsBound(steps: nat, millis: nat)
    requires steps * MAX_MILLIS_PER_STEP <= millis
    ensures steps <= millis / MAX_MILLIS_PER_STEP
  {
    var q := millis / MAX_MILLIS_PER_STEP;
    assert millis < (q + 1) * MAX_MILLIS_PER_STEP;
    assert steps < q + 1;
  }
}
