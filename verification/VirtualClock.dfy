// GetBootTime: a 32-bit millisecond counter turned into a 64-bit clock that runs at dwSpeed / 10000.

module VirtualClock {
  import opened TimerElements

  const SPEED_DEFAULT: int := 10000

  /** The ticks one sample adds to m_qwTotalTickCount. */
  function Passed(before: u32, now: u32, speed: u32): (ticks: u64) {
    (now - before) % TWO32 * speed / SPEED_DEFAULT
  }

  /** Readings ms[0], ms[1], ... of an unbounded millisecond clock, fewer than 2^32 ms apart. */
  predicate Readings(ms: seq<nat>) {
    forall i :: 0 <= i < |ms| - 1 ==> ms[i] <= ms[i + 1] < ms[i] + TWO32
  }

  /** m_qwTotalTickCount, without its own wrap-around, after the samples ms[1], ms[2], ... at the given speeds. */
  function Total(ms: seq<nat>, speed: seq<u32>): nat
    requires |ms| == |speed| + 1
  {
    if speed == [] then 0
    else
      var n := |speed|;
      Total(ms[..n], speed[..n - 1]) + Passed(ms[n - 1] % TWO32, ms[n] % TWO32, speed[n - 1])
  }

  /** Subtraction modulo 2^32 loses nothing between two readings. */
  lemma DifferenceIsExact(a: nat, b: nat)
    requires a <= b < a + TWO32
    ensures (b % TWO32 - a % TWO32) % TWO32 == b - a
  {
    assert b - a == (b % TWO32 - a % TWO32) + TWO32 * (b / TWO32 - a / TWO32);
  }

  lemma PassedBetween(a: nat, b: nat, speed: u32)
    requires a <= b < a + TWO32
    ensures Passed(a % TWO32, b % TWO32, speed) == (b - a) * speed / SPEED_DEFAULT
  {
    DifferenceIsExact(a, b);
  }

  lemma Scale(covered: int, d: int, total: int, n: int, s: int)
    requires n >= 0 && SPEED_DEFAULT * total <= covered * s
    requires n > 0 ==> covered * s < SPEED_DEFAULT * (total + n)
    requires n == 0 ==> covered * s == SPEED_DEFAULT * total
    ensures SPEED_DEFAULT * (total + d * s / SPEED_DEFAULT) <= (covered + d) * s
    ensures (covered + d) * s < SPEED_DEFAULT * (total + d * s / SPEED_DEFAULT + n + 1)
  {
    var x := d * s;
    assert (covered + d) * s == covered * s + x;
    assert SPEED_DEFAULT * (x / SPEED_DEFAULT) <= x < SPEED_DEFAULT * (x / SPEED_DEFAULT + 1);
  }

  /**
   * At constant speed s, after n samples covering D ms the clock shows D * s / 10000 to within n ticks,
   * never more.
   */
  lemma {:induction false} Drift(ms: seq<nat>, speed: seq<u32>, s: u32)
    requires |ms| == |speed| + 1 && Readings(ms) && forall i :: 0 <= i < |speed| ==> speed[i] == s
    ensures SPEED_DEFAULT * Total(ms, speed) <= (ms[|speed|] - ms[0]) * s
    ensures |speed| > 0 ==> (ms[|speed|] - ms[0]) * s < SPEED_DEFAULT * (Total(ms, speed) + |speed|)
  {
    hide Passed;
    var n := |speed|;
    if n > 0 {
      Drift(ms[..n], speed[..n - 1], s);
      PassedBetween(ms[n - 1], ms[n], s);
      var a: int, b: int, c: int := ms[0], ms[n - 1], ms[n];
      Scale(b - a, c - b, Total(ms[..n], speed[..n - 1]), n - 1, s);
    }
  }

  lemma ScaleExact(covered: int, d: int, total: int, s: int)
    requires SPEED_DEFAULT * total == covered * s && s % SPEED_DEFAULT == 0
    ensures SPEED_DEFAULT * (total + d * s / SPEED_DEFAULT) == (covered + d) * s
  {
    var m := s / SPEED_DEFAULT;
    var p := d * m;
    assert s == SPEED_DEFAULT * m;
    assert d * s == SPEED_DEFAULT * p by {
      assert d * (SPEED_DEFAULT * m) == SPEED_DEFAULT * (d * m);
    }
    assert d * s / SPEED_DEFAULT == p;
    assert (covered + d) * s == covered * s + d * s;
  }

  /** At a speed that is a whole multiple of 10000 nothing is lost to rounding. */
  lemma {:induction false} NoDrift(ms: seq<nat>, speed: seq<u32>, s: u32)
    requires |ms| == |speed| + 1 && Readings(ms) && forall i :: 0 <= i < |speed| ==> speed[i] == s
    requires s % SPEED_DEFAULT == 0
    ensures SPEED_DEFAULT * Total(ms, speed) == (ms[|speed|] - ms[0]) * s
  {
    hide Passed;
    var n := |speed|;
    if n > 0 {
      NoDrift(ms[..n], speed[..n - 1], s);
      PassedBetween(ms[n - 1], ms[n], s);
      var a: int, b: int, c: int := ms[0], ms[n - 1], ms[n];
      ScaleExact(b - a, c - b, Total(ms[..n], speed[..n - 1]), s);
    }
  }

  /** 10000 stands for the pace of the wall clock, 20000 for twice that, and at speed 0 time stands still. */
  lemma KnownPaces(ms: seq<nat>, speed: seq<u32>, s: u32)
    requires |ms| == |speed| + 1 && Readings(ms) && forall i :: 0 <= i < |speed| ==> speed[i] == s
    ensures s == 10000 ==> ms[0] + Total(ms, speed) == ms[|speed|]
    ensures s == 20000 ==> 2 * ms[0] + Total(ms, speed) == 2 * ms[|speed|]
    ensures s == 0 ==> Total(ms, speed) == 0
  {
    if s == 10000 || s == 20000 || s == 0 {
      NoDrift(ms, speed, s);
    }
  }

  /** Whatever the speeds, the clock never goes back. */
  lemma {:induction false} Monotone(ms: seq<nat>, speed: seq<u32>, k: nat)
    requires |ms| == |speed| + 1 && k <= |speed|
    ensures Total(ms[..k + 1], speed[..k]) <= Total(ms, speed)
  {
    var n := |speed|;
    if k < n {
      Monotone(ms[..n], speed[..n - 1], k);
      assert ms[..n][..k + 1] == ms[..k + 1] && speed[..n - 1][..k] == speed[..k];
    } else {
      assert ms[..k + 1] == ms && speed[..k] == speed;
    }
  }
}
