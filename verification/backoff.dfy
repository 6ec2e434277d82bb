/** The retry delay of egress/helper/helper.go (Backoff). Durations and times are nanoseconds; the clock's readings
    and the time slept are parameters and results. */
module Backoffs {

  const SECOND := 1_000_000_000
  const FIRST := 2 * SECOND
  const ENOUGH := 120 * SECOND   // no growth from here on
  const FORGET := 1800 * SECOND  // thirty minutes

  /** The clock as one call of Next reads it: in time.Since, and in time.Now. */
  datatype Clock = Clock(since: int, now: int)

  datatype Delay = Delay(duration: nat, last: int)

  function Grown(d: nat): nat {
    d + d * 15 / 100
  }

  /** The call returns at once and starts over with the first delay. */
  predicate StartsOver(b: Delay, c: Clock) {
    b.duration == 0 || c.since - b.last > FORGET
  }

  function Next(b: Delay, c: Clock): Delay {
    if StartsOver(b, c) then Delay(FIRST, c.now)
    else if b.duration < ENOUGH then Delay(Grown(b.duration), c.now)
    else b
  }

  function Slept(b: Delay, c: Clock): nat {
    if StartsOver(b, c) then 0 else Next(b, c).duration
  }

  class Backoff {
    var duration: nat
    var last: int

    constructor ()
      ensures duration == 0
    {
      duration, last := 0, 0;
    }

    function Contents(): Delay
      reads this
    {
      Delay(duration, last)
    }

    method Reset(now: int)
      modifies this
      ensures Contents() == Delay(FIRST, now)
    {
      last := now;
      duration := 2 * SECOND;
    }

    /** The first call, and one more than thirty minutes after `last`, start over at two seconds and do not sleep;
        others sleep, those below two minutes 15% longer than before, and only these move `last`. */
    method Wait(c: Clock) returns (slept: nat)
      modifies this
      ensures if old(duration) == 0 || c.since - old(last) > 1_800_000_000_000 then
                duration == 2_000_000_000 && last == c.now && slept == 0
              else if old(duration) < 120_000_000_000 then
                duration == old(duration) + old(duration) * 15 / 100 && last == c.now && slept == duration
              else
                duration == old(duration) && last == old(last) && slept == duration
      ensures Contents() == Next(old(Contents()), c) && slept == Slept(old(Contents()), c)
    {
      if duration == 0 {
        Reset(c.now);
        return 0;
      }
      if c.since - last > 30 * 60 * SECOND {
        Reset(c.now);
        return 0;
      }
      if duration < 2 * 60 * SECOND {
        duration := duration + duration * 15 / 100;
        last := c.now;
      }
      slept := duration;
    }
  }

  // ---------------------------------------------------------------- runs

  function After(clocks: seq<Clock>, n: nat): Delay
    requires n <= |clocks|
  {
    if n == 0 then Delay(0, 0) else Next(After(clocks, n - 1), clocks[n - 1])
  }

  predicate AtOnce(clocks: seq<Clock>, i: nat)
    requires i < |clocks|
  {
    StartsOver(After(clocks, i), clocks[i])
  }

  /** The clock never goes back, and a call that sleeps returns only after its delay. */
  predicate Monotone(clocks: seq<Clock>) {
    forall i :: 0 <= i < |clocks| ==>
      clocks[i].since <= clocks[i].now
      && (i + 1 < |clocks| ==> clocks[i].now + Slept(After(clocks, i), clocks[i]) <= clocks[i + 1].since)
  }

  /** From the first call on, the delay is at least two seconds and less than 138. */
  lemma {:induction false} DelayIsBounded(clocks: seq<Clock>, n: nat)
    requires 0 < n <= |clocks|
    ensures 2_000_000_000 <= After(clocks, n).duration < 138_000_000_000
  {
    if n > 1 {
      DelayIsBounded(clocks, n - 1);
    }
  }

  /** `last` is a time at which the run has been. */
  lemma {:induction false} LastIsPast(clocks: seq<Clock>, i: nat, n: nat)
    requires i < n <= |clocks| && Monotone(clocks)
    requires AtOnce(clocks, i)
    ensures clocks[i].now <= After(clocks, n).last <= clocks[n - 1].now
  {
    if n > i + 1 {
      LastIsPast(clocks, i, n - 1);
      assert clocks[n - 2].now <= clocks[n - 1].since;
    }
  }

  /** Two calls that return at once are more than thirty minutes apart, so that they cannot be frequent however the
      calls come. */
  lemma AtOnceIsRare(clocks: seq<Clock>, i: nat, j: nat)
    requires i < j < |clocks| && Monotone(clocks)
    requires AtOnce(clocks, i) && AtOnce(clocks, j)
    ensures clocks[j].since - clocks[i].now > 1_800_000_000_000
  {
    DelayIsBounded(clocks, j);
    LastIsPast(clocks, i, j);
  }

  function CountAtOnce(clocks: seq<Clock>, n: nat): nat
    requires n <= |clocks|
  {
    if n == 0 then 0 else CountAtOnce(clocks, n - 1) + (if AtOnce(clocks, n - 1) then 1 else 0)
  }

  /** In any stretch of a run from its first call, calls that return at once number at most one for each thirty
      minutes, and one. */
  lemma {:induction false} AtOnceRate(clocks: seq<Clock>, n: nat)
    requires 0 < n <= |clocks| && Monotone(clocks)
    ensures CountAtOnce(clocks, n) >= 1
    ensures 1_800_000_000_000 * (CountAtOnce(clocks, n) - 1) <= After(clocks, n).last - clocks[0].now
  {
    if n > 1 {
      AtOnceRate(clocks, n - 1);
      DelayIsBounded(clocks, n - 1);
      LastIsPast(clocks, 0, n - 1);
      assert AtOnce(clocks, 0);
      assert clocks[n - 2].now <= clocks[n - 1].since <= clocks[n - 1].now;
    } else {
      assert After(clocks, 0).duration == 0;
      assert CountAtOnce(clocks, 0) == 0;
    }
  }

  // ---------------------------------------------------------------- what `last` is

  /** Call i starts over or grows the delay. */
  predicate Moves(clocks: seq<Clock>, i: nat)
    requires i < |clocks|
  {
    AtOnce(clocks, i) || After(clocks, i).duration < 120_000_000_000
  }

  /** After any run, `last` is the clock of the latest call that started over or grew the delay. */
  lemma {:induction false} LastMove(clocks: seq<Clock>, n: nat) returns (k: nat)
    requires 0 < n <= |clocks|
    ensures k < n && Moves(clocks, k) && (forall j :: k < j < n ==> !Moves(clocks, j))
    ensures After(clocks, n).last == clocks[k].now
  {
    var m := n - 1;
    if Moves(clocks, m) {
      k := m;
    } else {
      k := LastMove(clocks, m);
    }
  }

  /** A call that sleeps with a delay below two minutes makes it 15% longer and moves `last` to its own clock; one that
      sleeps with a longer delay changes nothing; one that starts over sets two seconds and its own clock. */
  lemma OneCall(clocks: seq<Clock>, n: nat)
    requires n < |clocks|
    ensures var before, after := After(clocks, n), After(clocks, n + 1);
            if AtOnce(clocks, n) then after == Delay(2_000_000_000, clocks[n].now)
            else if before.duration < 120_000_000_000 then
              after == Delay(before.duration + before.duration * 15 / 100, clocks[n].now)
            else after == before
  {
  }

  /** A call starts over exactly if it is the first, or more than 1800 seconds have passed since the latest call that
      started over or grew the delay. */
  lemma StartsOverExactly(clocks: seq<Clock>, n: nat) returns (k: nat)
    requires n < |clocks|
    ensures n == 0 ==> AtOnce(clocks, n)
    ensures n > 0 ==>
              && k < n && Moves(clocks, k) && (forall j :: k < j < n ==> !Moves(clocks, j))
              && (AtOnce(clocks, n) <==> clocks[n].since - clocks[k].now > 1_800_000_000_000)
  {
    k := 0;
    if n > 0 {
      k := LastMove(clocks, n);
      DelayIsBounded(clocks, n);
    }
  }

  // ---------------------------------------------------------------- growth

  /** The delay after k calls in a row that sleep, starting from the first delay. */
  function DelayAfter(k: nat): nat {
    if k == 0 then FIRST
    else
      var d := DelayAfter(k - 1);
      if d < ENOUGH then Grown(d) else d
  }

  lemma GrownBounds(d: nat)
    ensures 115 * d - 100 <= 100 * Grown(d) <= 115 * d
  {
  }

  lemma {:induction false} NeverBelowFirst(k: nat)
    ensures DelayAfter(k) >= FIRST
  {
    if k > 0 {
      NeverBelowFirst(k - 1);
    }
  }

  /** Five sleeping calls double the delay, or find it grown enough. */
  lemma FiveDouble(k: nat)
    ensures DelayAfter(k + 5) >= ENOUGH || DelayAfter(k + 5) >= 2 * DelayAfter(k)
  {
    var d0, d1, d2, d3, d4 := DelayAfter(k), DelayAfter(k + 1), DelayAfter(k + 2), DelayAfter(k + 3), DelayAfter(k + 4);
    NeverBelowFirst(k);
    GrownBounds(d0);
    GrownBounds(d1);
    GrownBounds(d2);
    GrownBounds(d3);
    GrownBounds(d4);
  }

  function Pow2(m: nat): nat {
    if m == 0 then 1 else 2 * Pow2(m - 1)
  }

  lemma {:induction false} Doubled(m: nat)
    ensures DelayAfter(5 * m) >= ENOUGH || DelayAfter(5 * m) >= FIRST * Pow2(m)
  {
    if m > 0 {
      Doubled(m - 1);
      FiveDouble(5 * (m - 1));
      StaysGrown(5 * (m - 1), 5 * m);
    }
  }

  /** After at most thirty sleeping calls in a row the delay has stopped growing. */
  lemma GrowthEnds(k: nat)
    requires k >= 30
    ensures DelayAfter(k) >= 120_000_000_000 && DelayAfter(k + 1) == DelayAfter(k)
  {
    EndsAfter(6, k);
  }

  lemma EndsAfter(m: nat, k: nat)
    requires Pow2(m) >= 60 && 5 * m <= k
    ensures DelayAfter(k) >= 120_000_000_000 && DelayAfter(k + 1) == DelayAfter(k)
  {
    Doubled(m);
    StaysGrown(5 * m, k);
  }

  lemma {:induction false} StaysGrown(j: nat, k: nat)
    requires j <= k
    ensures DelayAfter(j) >= ENOUGH ==> DelayAfter(k) >= ENOUGH
  {
    if j < k {
      StaysGrown(j, k - 1);
    }
  }

  /** k calls that sleep, after one that returned at once, leave the delay at DelayAfter(k). */
  lemma {:induction false} SleepersGrow(clocks: seq<Clock>, i: nat, k: nat)
    requires i + k < |clocks| && AtOnce(clocks, i)
    requires forall j :: i < j <= i + k ==> !AtOnce(clocks, j)
    ensures After(clocks, i + k + 1).duration == DelayAfter(k)
  {
    if k > 0 {
      SleepersGrow(clocks, i, k - 1);
      assert !AtOnce(clocks, i + k);
    }
  }

  /** Once fully grown, sleeping does not move `last`: thirty minutes after the last growth the next call starts over,
      however often Next was called in between. */
  lemma {:induction false} GrownForgets(clocks: seq<Clock>, i: nat, n: nat)
    requires i <= n <= |clocks|
    requires After(clocks, i).duration >= 120_000_000_000
    requires forall j :: i <= j < n ==> !AtOnce(clocks, j)
    ensures After(clocks, n) == After(clocks, i)
    ensures n < |clocks| ==> (AtOnce(clocks, n) <==> clocks[n].since - After(clocks, i).last > 1_800_000_000_000)
  {
    if i < n {
      GrownForgets(clocks, i, n - 1);
    }
  }
}
