// The slot arithmetic of the five-level timing wheel: which list an element goes to, when that
// list is next visited, and why no visit comes after the element is due.

module Wheel {
  import opened TimerElements

  // Width in ticks of one slot at tv2, tv3, tv4 and tv5.
  const G2: int := 0x100
  const G3: int := 0x4000
  const G4: int := 0x10_0000
  const G5: int := 0x400_0000
  const CLAMP: int := 0xffff_ffff

  // tv1..tv5 laid out one after another.
  const TV2: nat := 256
  const TV3: nat := 320
  const TV4: nat := 384
  const TV5: nat := 448
  const SLOTS: nat := 512

  /** m_qwNextTime - m_qwLastTime in 64-bit arithmetic. */
  function Ahead(next: u64, last: int): (idx: u64) {
    (next - last) % TWO64
  }

  /** The slot AddTimerElement chooses. */
  function SlotOf(next: u64, last: u64): nat {
    var idx := Ahead(next, last);
    if idx < G2 then next % 256
    else if idx < G3 then TV2 + next / G2 % 64
    else if idx < G4 then TV3 + next / G3 % 64
    else if idx < G5 then TV4 + next / G4 % 64
    else if idx >= TWO63 then last % 256
    else TV5 + (if idx > CLAMP then (CLAMP + last) % TWO64 else next) / G5 % 64
  }

  /**
   * The tick at which an element added at `tick` with expiry `next` is dispatched.  The slot of the
   * current tick is already detached while it is being dispatched, so what goes there then waits a
   * whole turn of tv1.
   */
  function DueTick(tick: nat, dispatching: bool, next: u64): nat {
    var idx := Ahead(next, tick);
    if idx < TWO63 && (idx > 0 || !dispatching) then tick + idx
    else if dispatching then tick + 256
    else tick
  }

  /** Ticks per slot of the level that holds slot k. */
  function Width(k: nat): int {
    if k < TV2 then 1 else if k < TV3 then G2 else if k < TV4 then G3 else if k < TV5 then G4 else G5
  }

  function FirstSlot(g: int): nat {
    if g == G2 then TV2 else if g == G3 then TV3 else if g == G4 then TV4 else TV5
  }

  ghost predicate IsCoarse(g: int) {
    g == G2 || g == G3 || g == G4 || g == G5
  }

  /** An element of slot i at width g is next visited at tick `touch`, which is not before lo. */
  ghost predicate Coarse(g: int, i: int, due: nat, touch: nat, lo: nat)
    requires IsCoarse(g)
  {
    && touch % g == 0
    && touch / g % 64 == i
    && lo <= touch < lo + 64 * g
    && touch <= due < lo + TWO63
  }

  /** Placement of an element due at `due` in slot k, when lo is the first tick not yet visited. */
  ghost predicate Placed(k: nat, due: nat, touch: nat, lo: nat) {
    if k < TV2 then
      due % 256 == k && lo <= due < lo + 256
    else
      k < SLOTS && Coarse(Width(k), k - FirstSlot(Width(k)), due, touch, lo)
  }

  /** When an element added at `tick` is first visited by a cascade, or dispatched. */
  function TouchOf(tick: nat, due: nat): (touch: nat)
    requires tick <= due
    ensures due - tick >= G2 ==> tick < touch <= due
  {
    var idx := due - tick;
    if idx < G2 then due
    else if idx < G3 then RoundDown(due, G2); due / G2 * G2
    else if idx < G4 then RoundDown(due, G3); due / G3 * G3
    else if idx < G5 then RoundDown(due, G4); due / G4 * G4
    else
      var x := if idx > CLAMP then tick + CLAMP else due;
      RoundDown(x, G5);
      x / G5 * G5
  }

  function Level(tick: nat, due: nat): nat
    requires tick <= due
  {
    var idx := due - tick;
    if idx < G2 then 1 else if idx < G3 then 2 else if idx < G4 then 3 else if idx < G5 then 4 else 5
  }

  /** How often __Cascade relinks an element added at `tick` before it is dispatched. */
  function Relinks(tick: nat, due: nat): nat
    requires tick <= due
    decreases due - tick
  {
    if due - tick < G2 then 0 else 1 + Relinks(TouchOf(tick, due), due)
  }

  lemma RoundDown(x: nat, g: int)
    requires g > 0
    ensures x / g * g % g == 0 && x / g * g / g == x / g && x - g < x / g * g <= x
  {
    var q := x / g;
    assert x == g * q + x % g;
    assert q * g % g == 0 by { DivAdd(q, 0, g); }
    assert q * g / g == q by { DivAdd(q, 0, g); }
  }

  lemma SmallMultiple(g: int, d: int)
    requires g > 0 && -g < g * d < g
    ensures d == 0
  {
    assert d >= 1 ==> g * d >= g;
    assert d <= -1 ==> g * d <= -g;
  }

  lemma DivAdd(q: int, r: nat, g: int)
    requires g > 0
    ensures (q * g + r) / g == q + r / g
    ensures (q * g + r) % g == r % g
  {
    var x := q * g + r;
    var d := x / g - (q + r / g);
    assert x == g * (x / g) + x % g && r == g * (r / g) + r % g;
    assert g * d == r % g - x % g by {
      assert g * (q + r / g) == g * q + g * (r / g);
      assert g * d == g * (x / g) - g * (q + r / g);
    }
    SmallMultiple(g, d);
  }

  /** Reducing modulo 64 * m * g does not change which of the 64 slots of width g a time falls in. */
  lemma SlotOfResidue(x: nat, g: int, m: int)
    requires g > 0 && m > 0
    ensures x % (64 * m * g) / g % 64 == x / g % 64
  {
    var w := 64 * m * g;
    var q, r := x / w, x % w;
    assert x == w * q + r;
    assert w * q == q * m * 64 * g;
    DivAdd(q * m * 64, r, g);
    DivAdd(q * m, r / g, 64);
  }

  lemma SlotArithmetic(x: nat, g: int)
    requires IsCoarse(g)
    ensures x % TWO64 / g % 64 == x / g % 64
  {
    SlotOfResidue(x, g, TWO64 / 64 / g);
  }

  lemma Residue(x: int, q: int, r: int)
    requires x == q * TWO64 + r && 0 <= r < TWO64
    ensures x % TWO64 == r
  {
  }

  lemma AheadOfTick(next: u64, tick: nat)
    ensures Ahead(next, tick % TWO64) == Ahead(next, tick)
    ensures next == (tick + Ahead(next, tick)) % TWO64
  {
    var q, t: int := tick / TWO64, tick % TWO64;
    var k, a: int := (next - t) / TWO64, (next - t) % TWO64;
    Residue(next - tick, k - q, a);
    Residue(tick + a, q - k, next);
  }

  lemma CoarsePlaces(g: int, tick: nat, lo: nat, x: nat, due: nat)
    requires IsCoarse(g) && tick <= lo <= tick + 1
    requires tick + g <= x < tick + 64 * g && x <= due < tick + TWO63
    ensures tick < x / g * g
    ensures Coarse(g, x % TWO64 / g % 64, due, x / g * g, lo)
  {
    RoundDown(x, g);
    SlotArithmetic(x, g);
  }

  lemma CoarseSlot(g: int, i: nat, due: nat, touch: nat, lo: nat)
    requires IsCoarse(g) && i < 64 && Coarse(g, i, due, touch, lo)
    ensures Placed(FirstSlot(g) + i, due, touch, lo)
  {
  }

  lemma AddCoarse(g: int, tick: nat, lo: nat, next: u64)
    requires IsCoarse(g) && tick <= lo <= tick + 1
    requires g <= Ahead(next, tick) < 64 * g && Ahead(next, tick) <= CLAMP
    ensures var due := tick + Ahead(next, tick);
            && next == due % TWO64 && tick < due / g * g
            && Placed(FirstSlot(g) + next / g % 64, due, due / g * g, lo)
  {
    AheadOfTick(next, tick);
    var due := tick + Ahead(next, tick);
    CoarsePlaces(g, tick, lo, due, due);
    CoarseSlot(g, next / g % 64, due, due / g * g, lo);
  }

  lemma AddClamped(tick: nat, lo: nat, next: u64)
    requires tick <= lo <= tick + 1
    requires CLAMP < Ahead(next, tick) < TWO63
    ensures var due := tick + Ahead(next, tick);
            && next == due % TWO64 && tick < (tick + CLAMP) / G5 * G5
            && Placed(TV5 + (CLAMP + tick % TWO64) % TWO64 / G5 % 64, due, (tick + CLAMP) / G5 * G5, lo)
  {
    AheadOfTick(next, tick);
    var due := tick + Ahead(next, tick);
    ClampPlaces(tick, lo, due);
    CoarseSlot(G5, (CLAMP + tick % TWO64) % TWO64 / G5 % 64, due, (tick + CLAMP) / G5 * G5, lo);
  }

  lemma SlotOfTick(tick: nat, due: nat, touch: nat, lo: nat)
    requires lo <= due < lo + 256 && (due == tick || due == tick + 256)
    ensures Placed(tick % TWO64 % 256, due, touch, lo)
  {
    LowBits(tick);
    DivAdd(1, tick, 256);
  }

  lemma AddFine(tick: nat, dispatching: bool, next: u64, touch: nat)
    requires Ahead(next, tick) < G2 || Ahead(next, tick) >= TWO63
    ensures var due := DueTick(tick, dispatching, next);
            var k := if Ahead(next, tick) < G2 then next % 256 else tick % TWO64 % 256;
            Placed(k, due, touch, if dispatching then tick + 1 else tick)
  {
    AheadOfTick(next, tick);
    var idx := Ahead(next, tick);
    if 0 < idx < G2 {
      LowBits(tick + idx);
    } else {
      assert idx == 0 ==> next == tick % TWO64;
      SlotOfTick(tick, DueTick(tick, dispatching, next), touch, if dispatching then tick + 1 else tick);
    }
  }

  lemma ClampWraps(tick: nat)
    ensures (CLAMP + tick % TWO64) % TWO64 == (tick + CLAMP) % TWO64
  {
    var x: int := tick + CLAMP;
    Residue(CLAMP + tick % TWO64, x / TWO64 - tick / TWO64, x % TWO64);
  }

  lemma ClampPlaces(tick: nat, lo: nat, due: nat)
    requires tick <= lo <= tick + 1 && tick + CLAMP < due < tick + TWO63
    ensures tick < (tick + CLAMP) / G5 * G5
    ensures Coarse(G5, (CLAMP + tick % TWO64) % TWO64 / G5 % 64, due, (tick + CLAMP) / G5 * G5, lo)
  {
    hide Coarse;
    CoarsePlaces(G5, tick, lo, tick + CLAMP, due);
    ClampWraps(tick);
  }

  lemma LowBits(x: nat)
    ensures x % TWO64 % 256 == x % 256
  {
    DivAdd(x / TWO64 * (TWO64 / 256), x % TWO64, 256);
  }

  /** AddTimerElement puts every element, late, on time or too far ahead, where it will be found when due. */
  lemma AddPlaces(tick: nat, dispatching: bool, next: u64)
    ensures var due := DueTick(tick, dispatching, next);
            var k := SlotOf(next, tick % TWO64);
            && tick <= due && (dispatching ==> tick < due)
            && Placed(k, due, TouchOf(tick, due), if dispatching then tick + 1 else tick)
            && (k >= TV2 ==> next == due % TWO64 && tick < TouchOf(tick, due) && due - tick >= G2)
  {
    var idx := Ahead(next, tick);
    var lo := if dispatching then tick + 1 else tick;
    AheadOfTick(next, tick);
    if idx < G2 || idx >= TWO63 {
      AddFine(tick, dispatching, next, TouchOf(tick, DueTick(tick, dispatching, next)));
    } else if idx < G3 {
      AddCoarse(G2, tick, lo, next);
    } else if idx < G4 {
      AddCoarse(G3, tick, lo, next);
    } else if idx < G5 {
      AddCoarse(G4, tick, lo, next);
    } else if idx > CLAMP {
      AddClamped(tick, lo, next);
    } else {
      AddCoarse(G5, tick, lo, next);
    }
  }

  /** At tick t the cascade chain, or for width 1 the dispatch, empties slot i of the level of width g. */
  predicate Visits(g: int, i: int, t: nat)
    requires IsCoarse(g)
  {
    t % g == 0 && t / g % 64 == i
  }

  /** A visit comes to exactly the placed elements whose touch tick has come, never sooner. */
  lemma FirstVisit(g: int, i: int, due: nat, touch: nat, lo: nat, t: nat)
    requires IsCoarse(g) && Coarse(g, i, due, touch, lo)
    requires lo <= t <= touch
    ensures Visits(g, i, t) <==> t == touch
  {
    if Visits(g, i, t) {
      var d := touch / g - t / g;
      assert touch == g * (touch / g) && t == g * (t / g);
      assert g * d == touch - t;
      assert 0 <= g * d < g * 64;
      assert 0 <= d < 64 by {
        assert d < 0 ==> g * d <= -g;
        assert d >= 64 ==> g * d >= g * 64;
      }
      assert (t / g + d) % 64 == t / g % 64;
    }
  }

  /** The nested tests of Run reach the level of width g exactly at the multiples of g. */
  lemma CascadeChain(t: nat)
    ensures var last := t % TWO64;
            && (last % 256 == 0 <==> t % G2 == 0)
            && (last % 256 == 0 && last / G2 % 64 == 0 <==> t % G3 == 0)
            && (last % 256 == 0 && last / G2 % 64 == 0 && last / G3 % 64 == 0 <==> t % G4 == 0)
            && (last % 256 == 0 && last / G2 % 64 == 0 && last / G3 % 64 == 0 && last / G4 % 64 == 0
                <==> t % G5 == 0)
            && last / G2 % 64 == t / G2 % 64 && last / G3 % 64 == t / G3 % 64
            && last / G4 % 64 == t / G4 % 64 && last / G5 % 64 == t / G5 % 64
  {
    LowBits(t);
    SlotArithmetic(t, G2);
    SlotArithmetic(t, G3);
    SlotArithmetic(t, G4);
    SlotArithmetic(t, G5);
    NextWidth(t, G2);
    NextWidth(t, G3);
    NextWidth(t, G4);
  }

  lemma LowDigit(g: int, b: nat, r: nat)
    requires r < g && b < 64
    ensures 0 <= g * b + r < 64 * g
    ensures g * b + r == 0 <==> b == 0 && r == 0
  {
    assert b >= 1 ==> g * b >= g;
    assert g * (63 - b) >= 0;
    assert g * (63 - b) == g * 63 - g * b;
  }

  lemma NextWidth(t: nat, g: int)
    requires g > 0
    ensures t % (64 * g) == 0 <==> t % g == 0 && t / g % 64 == 0
  {
    var q, r, n := t / g, t % g, 64 * g;
    var a, b := q / 64, q % 64;
    LowDigit(g, b, r);
    Digits(t, g, q, r, n, a, b);
    DivAdd(a, g * b + r, n);
    Remainder(g * b + r, n);
  }

  lemma Remainder(x: nat, n: nat)
    requires x < n
    ensures x % n == x
  {
  }

  lemma Digits(t: int, g: int, q: int, r: int, n: int, a: int, b: int)
    requires t == g * q + r && q == 64 * a + b && n == 64 * g
    ensures t == a * n + (g * b + r)
  {
    assert g * q == g * (64 * a) + g * b;
    assert g * (64 * a) == a * n;
  }

  /** An element added again on its way down keeps its due tick, and goes to tv1 exactly for the last 256 ticks. */
  lemma CascadeKeepsDue(tick: nat, due: nat)
    requires tick <= due < tick + TWO63
    ensures DueTick(tick, false, due % TWO64) == due
    ensures Ahead(due % TWO64, tick) == due - tick
    ensures SlotOf(due % TWO64, tick % TWO64) < TV2 <==> due - tick < G2
  {
    AheadOfTick(due % TWO64, tick);
    Residue(due % TWO64 - tick, -(due / TWO64), due - tick);
  }

  /**
   * An expiry that has passed, by at most 2^63 ticks, is due at once, in the slot of the current tick; while that slot
   * is being dispatched, one turn of tv1 later.
   */
  lemma LateIsNow(tick: nat, behind: nat)
    requires behind <= TWO63
    ensures var next := (tick - behind) % TWO64;
            && DueTick(tick, false, next) == tick && DueTick(tick, true, next) == tick + 256
            && SlotOf(next, tick % TWO64) == tick % 256
  {
    var next := (tick - behind) % TWO64;
    AheadOfTick(next, tick);
    LowBits(tick);
    var x: int := tick - behind;
    if behind > 0 {
      Residue(next - tick, -(x / TWO64) - 1, TWO64 - behind);
    } else {
      Residue(next - tick, -(x / TWO64), 0);
    }
  }

  lemma ModShift(x: nat, q: nat)
    requires x < TWO64
    ensures (x - q * TWO64) % TWO64 == x
  {
  }

  /** Each cascade moves an element to a strictly finer level, or cuts a clamped wait by 2^32 - 2^26. */
  lemma CascadeProgress(tick: nat, due: nat)
    requires due - tick >= G2
    ensures due - tick <= CLAMP ==> Level(TouchOf(tick, due), due) < Level(tick, due)
    ensures due - tick > CLAMP ==> due - TouchOf(tick, due) <= due - tick - (TWO32 - G5)
  {
    var idx := due - tick;
    if idx < G3 { RoundDown(due, G2); }
    else if idx < G4 { RoundDown(due, G3); }
    else if idx < G5 { RoundDown(due, G4); }
    else { RoundDown(if idx > CLAMP then tick + CLAMP else due, G5); }
  }

  lemma {:induction false} RelinksByLevel(tick: nat, due: nat)
    requires 0 <= due - tick <= CLAMP
    ensures Relinks(tick, due) < Level(tick, due)
    decreases due - tick
  {
    if due - tick >= G2 {
      CascadeProgress(tick, due);
      RelinksByLevel(TouchOf(tick, due), due);
    }
  }

  /** An element added D ticks ahead is relinked at most 4 + D / (2^32 - 2^26) times. */
  lemma {:induction false} RelinkBound(tick: nat, due: nat)
    requires tick <= due
    ensures Relinks(tick, due) <= 4 + (due - tick) / (TWO32 - G5)
    decreases due - tick
  {
    if due - tick <= CLAMP {
      RelinksByLevel(tick, due);
    } else {
      var touch := TouchOf(tick, due);
      CascadeProgress(tick, due);
      RelinkBound(touch, due);
      Quotient(due - touch, due - tick, TWO32 - G5);
    }
  }

  lemma Quotient(x: nat, y: nat, m: int)
    requires m > 0 && x + m <= y
    ensures x / m + 1 <= y / m
  {
    DivAdd(1, x, m);
    var d := y / m - (x + m) / m;
    assert y == m * (y / m) + y % m;
    assert x + m == m * ((x + m) / m) + (x + m) % m;
    assert m * d == y - y % m - (x + m) + (x + m) % m;
    assert d <= -1 ==> m * d <= -m;
  }
}
