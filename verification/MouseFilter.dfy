/** The motion filters of the mouse: the isolated-sample filter and the adaptive smoothing in Q8 fixed point. */
module MouseFilter {
  datatype Motion = Motion(dx: int, dy: int)

  const STILL := Motion(0, 0)

  // ---- Isolated samples ----

  /** The sample waiting for its successor, and whether the one before it moved. */
  datatype Spot = Spot(held: Motion, moved: bool)

  function SpotOut(s: Spot, now: Motion): Motion {
    if s.held != STILL && !s.moved && now == STILL then STILL else s.held
  }

  function SpotNext(s: Spot, now: Motion): Spot { Spot(now, s.held != STILL) }

  function Filtered(s: Spot, ins: seq<Motion>): (outs: seq<Motion>)
    ensures |outs| == |ins|
    decreases ins
  {
    if ins == [] then [] else [SpotOut(s, ins[0])] + Filtered(SpotNext(s, ins[0]), ins[1..])
  }

  /** Sample k moves, and neither of its neighbours does. */
  predicate Isolated(ins: seq<Motion>, k: nat)
    requires k + 1 < |ins|
  {
    ins[k] != STILL && (k > 0 ==> ins[k - 1] == STILL) && ins[k + 1] == STILL
  }

  lemma {:induction false} FilteredAt(s: Spot, ins: seq<Motion>, k: nat)
    requires 0 < k < |ins|
    ensures Filtered(s, ins)[k]
            == SpotOut(Spot(ins[k - 1], if k == 1 then s.held != STILL else ins[k - 2] != STILL), ins[k])
    decreases k
  {
    var next := SpotNext(s, ins[0]);
    if k == 1 {
      assert Filtered(s, ins)[1] == Filtered(next, ins[1..])[0];
    } else {
      FilteredAt(next, ins[1..], k - 1);
    }
  }

  /** Every sample comes out unchanged one step later, except exactly the isolated ones. */
  lemma OnlyIsolatedSamplesAreDropped(ins: seq<Motion>)
    ensures var outs := Filtered(Spot(STILL, false), ins);
            && (ins != [] ==> outs[0] == STILL)
            && forall k :: 0 <= k && k + 1 < |ins| ==> outs[k + 1] == if Isolated(ins, k) then STILL else ins[k]
  {
    forall k: nat | k + 1 < |ins|
      ensures Filtered(Spot(STILL, false), ins)[k + 1] == if Isolated(ins, k) then STILL else ins[k]
    {
      FilteredAt(Spot(STILL, false), ins, k + 1);
    }
  }

  class SpotFilter {
    var heldX: int
    var heldY: int
    var moved: bool

    function View(): Spot
      reads this
    {
      Spot(Motion(heldX, heldY), moved)
    }

    constructor ()
      ensures View() == Spot(STILL, false)
    {
      heldX, heldY, moved := 0, 0, false;
    }

    method Pass(dx: int, dy: int) returns (ox: int, oy: int)
      modifies this
      ensures Motion(ox, oy) == SpotOut(old(View()), Motion(dx, dy))
      ensures View() == SpotNext(old(View()), Motion(dx, dy))
    {
      var moves := dx != 0 || dy != 0;
      var heldMoves := heldX != 0 || heldY != 0;
      ox, oy := heldX, heldY;
      if heldMoves && !moved && !moves {
        ox, oy := 0, 0;
      }
      heldX, heldY, moved := dx, dy, heldMoves;
    }
  }

  // ---- Smoothing ----

  const ALPHA_MIN := 38
  const SPEED_MAX := 8

  /** Division by 256, truncating toward zero. */
  function Quot(a: int): (q: int)
    ensures if a >= 0 then 0 <= a - 256 * q < 256 && 0 <= q else -256 < a - 256 * q <= 0 && q <= 0
  {
    if a >= 0 then a / 256 else -((-a) / 256)
  }

  function Abs(a: int): nat { if a < 0 then -a else a }

  function Speed(m: Motion): nat { Abs(m.dx) + Abs(m.dy) }

  /** The weight of a new sample, in 256ths, at a given speed. */
  function Weight(v: nat): (alpha: int)
    requires v <= SPEED_MAX
    ensures ALPHA_MIN <= alpha <= 256
    ensures v == 0 ==> alpha == ALPHA_MIN
    ensures alpha == 256 <==> v == SPEED_MAX
  {
    ALPHA_MIN + (256 - ALPHA_MIN) * v / SPEED_MAX
  }

  /** From SPEED_MAX on the state follows the hand at once. */
  function Alpha(m: Motion): (alpha: int)
    ensures ALPHA_MIN <= alpha <= 256
    ensures m == STILL ==> alpha == ALPHA_MIN
    ensures alpha == 256 <==> Speed(m) >= SPEED_MAX
  {
    Weight(if Speed(m) > SPEED_MAX then SPEED_MAX else Speed(m))
  }

  /** The weight of a sample, an eighth of the way from 38 to 256 for each count it moves, up to eight on both axes
      together. */
  lemma WeightOfSample(right: nat, down: nat, m: Motion)
    requires (m.dx == right || m.dx + right == 0) && (m.dy == down || m.dy + down == 0)
    ensures right + down <= 8 ==> Alpha(m) == [38, 65, 92, 119, 147, 174, 201, 228, 256][right + down]
    ensures right + down > 8 ==> Alpha(m) == 256
  {
  }

  /** One axis: the smoothed speed, and the fraction not yet emitted, both in 256ths. */
  datatype Axis = Axis(state: int, rest: int)

  const ORIGIN := Axis(0, 0)

  function Pull(state: int, d: int, alpha: int): int { state + Quot((d * 256 - state) * alpha) }

  /** The state moves by `alpha` 256ths of its distance from the sample, less what does not make a whole step. */
  lemma PullIsWeighted(state: int, d: int, alpha: int)
    ensures var step, way := Pull(state, d, alpha) - state, (256 * d - state) * alpha;
            if way >= 0 then 0 <= 256 * step <= way < 256 * step + 256 else 256 * step - 256 < way <= 256 * step <= 0
  {
  }

  function AxisNext(a: Axis, d: int, alpha: int): Axis {
    var state := Pull(a.state, d, alpha);
    Axis(state, a.rest + state - 256 * Quot(a.rest + state))
  }

  function AxisOut(a: Axis, d: int, alpha: int): int { Quot(a.rest + Pull(a.state, d, alpha)) }

  class Smoother {
    var stateX: int
    var stateY: int
    var restX: int
    var restY: int

    function X(): Axis reads this { Axis(stateX, restX) }
    function Y(): Axis reads this { Axis(stateY, restY) }

    constructor ()
      ensures X() == ORIGIN && Y() == ORIGIN
    {
      stateX, stateY, restX, restY := 0, 0, 0, 0;
    }

    static method Responsiveness(dx: int, dy: int) returns (alpha: int)
      ensures alpha == Alpha(Motion(dx, dy))
    {
      var v := (if dx < 0 then -dx else dx) + (if dy < 0 then -dy else dy);
      if v > SPEED_MAX { v := SPEED_MAX; }
      alpha := ALPHA_MIN + (256 - ALPHA_MIN) * v / SPEED_MAX;
    }

    method Smooth(dx: int, dy: int) returns (sx: int, sy: int)
      modifies this
      ensures X() == AxisNext(old(X()), dx, Alpha(Motion(dx, dy)))
      ensures Y() == AxisNext(old(Y()), dy, Alpha(Motion(dx, dy)))
      ensures sx == AxisOut(old(X()), dx, Alpha(Motion(dx, dy)))
      ensures sy == AxisOut(old(Y()), dy, Alpha(Motion(dx, dy)))
    {
      hide Quot, Alpha;
      var alpha := Responsiveness(dx, dy);
      stateX := stateX + Quot((dx * 256 - stateX) * alpha);
      stateY := stateY + Quot((dy * 256 - stateY) * alpha);
      restX := restX + stateX;
      restY := restY + stateY;
      sx, sy := Quot(restX), Quot(restY);
      restX := restX - sx * 256;
      restY := restY - sy * 256;
    }
  }

  // ---- Runs of one axis ----

  function Along(m: Motion, onY: bool): int { if onY then m.dy else m.dx }

  function After(a: Axis, ms: seq<Motion>, onY: bool): Axis {
    if ms == [] then a else AxisNext(After(a, ms[..|ms| - 1], onY), Along(ms[|ms| - 1], onY), Alpha(ms[|ms| - 1]))
  }

  /** What the axis has emitted in all. */
  function Total(a: Axis, ms: seq<Motion>, onY: bool): int {
    if ms == [] then 0
    else
      var front, last := ms[..|ms| - 1], ms[|ms| - 1];
      Total(a, front, onY) + AxisOut(After(a, front, onY), Along(last, onY), Alpha(last))
  }

  /** The sum of the states passed through. */
  function Travelled(a: Axis, ms: seq<Motion>, onY: bool): int {
    if ms == [] then 0 else Travelled(a, ms[..|ms| - 1], onY) + After(a, ms, onY).state
  }

  lemma StepLosesNothing(a: Axis, d: int, alpha: int)
    ensures 256 * AxisOut(a, d, alpha) + AxisNext(a, d, alpha).rest == a.rest + AxisNext(a, d, alpha).state
    ensures -256 < AxisNext(a, d, alpha).rest < 256
  {
    hide Pull;
  }

  /** Nothing the smoothed speed asks for is lost to rounding: what is not emitted yet is a fraction of a count. */
  lemma {:induction false} RoundingLosesNothing(a: Axis, ms: seq<Motion>, onY: bool)
    requires -256 < a.rest < 256
    ensures 256 * Total(a, ms, onY) + After(a, ms, onY).rest == a.rest + Travelled(a, ms, onY)
    ensures -256 < After(a, ms, onY).rest < 256
  {
    if ms != [] {
      hide AxisNext, AxisOut, Alpha, Along;
      var front, last := ms[..|ms| - 1], ms[|ms| - 1];
      RoundingLosesNothing(a, front, onY);
      StepLosesNothing(After(a, front, onY), Along(last, onY), Alpha(last));
    }
  }

  lemma Weighted(gap: int, alpha: int)
    requires 0 <= alpha <= 256
    ensures if gap >= 0 then 0 <= gap * alpha <= gap * 256 else gap * 256 <= gap * alpha <= 0
  {
    assert gap * 256 - gap * alpha == gap * (256 - alpha);
  }

  lemma PullBetween(state: int, d: int, alpha: int)
    requires 0 < alpha <= 256
    ensures state <= d * 256 ==> state <= Pull(state, d, alpha) <= d * 256
    ensures state >= d * 256 ==> state >= Pull(state, d, alpha) >= d * 256
    ensures alpha == 256 ==> Pull(state, d, alpha) == d * 256
  {
    Weighted(d * 256 - state, alpha);
  }

  /** The new state lies between the old one and the sample, and on the sample once the hand moves 8 counts or more. */
  lemma PullIsBetween(state: int, m: Motion, onY: bool)
    ensures var d, next := Along(m, onY) * 256, Pull(state, Along(m, onY), Alpha(m));
            && (state <= d ==> state <= next <= d) && (state >= d ==> state >= next >= d)
            && (Abs(m.dx) + Abs(m.dy) >= 8 ==> next == d)
  {
    PullBetween(state, Along(m, onY), Alpha(m));
    hide Pull;
  }

  // ---- 32-bit arithmetic ----

  predicate Fits32(v: int) { -0x8000_0000 <= v < 0x8000_0000 }
  predicate Fits16(v: int) { -0x8000 <= v < 0x8000 }

  /** No intermediate value of one axis's step leaves int32, and the result survives the narrowing to int16. */
  predicate StepFits(a: Axis, d: int, alpha: int) {
    var state, out := Pull(a.state, d, alpha), AxisOut(a, d, alpha);
    && Fits32(d * 256) && Fits32(d * 256 - a.state) && Fits32((d * 256 - a.state) * alpha)
    && Fits32(state) && Fits32(a.rest + state) && Fits32(out * 256) && Fits16(out)
  }

  predicate RunFits(a: Axis, ms: seq<Motion>, onY: bool) {
    ms == [] || (RunFits(a, ms[..|ms| - 1], onY)
                 && StepFits(After(a, ms[..|ms| - 1], onY), Along(ms[|ms| - 1], onY), Alpha(ms[|ms| - 1])))
  }

  predicate Ranged(ms: seq<Motion>, lo: int, hi: int) {
    forall m :: m in ms ==> lo <= m.dx <= hi && lo <= m.dy <= hi
  }

  lemma StepFitsWithin(a: Axis, d: int, alpha: int, lo: int, hi: int)
    requires lo <= 0 <= hi && hi - lo <= 0x7FFF && lo <= d <= hi && 0 < alpha <= 256
    requires lo * 256 <= a.state <= hi * 256 && -256 < a.rest < 256
    ensures StepFits(a, d, alpha)
    ensures lo * 256 <= Pull(a.state, d, alpha) <= hi * 256
  {
    PullBetween(a.state, d, alpha);
    Weighted(d * 256 - a.state, alpha);
  }

  lemma {:induction false} NarrowRangeFits(ms: seq<Motion>, onY: bool, lo: int, hi: int)
    requires lo <= 0 <= hi && hi - lo <= 0x7FFF && Ranged(ms, lo, hi)
    ensures RunFits(ORIGIN, ms, onY)
    ensures lo * 256 <= After(ORIGIN, ms, onY).state <= hi * 256
  {
    if ms != [] {
      var front, last := ms[..|ms| - 1], ms[|ms| - 1];
      assert Ranged(front, lo, hi);
      NarrowRangeFits(front, onY, lo, hi);
      RoundingLosesNothing(ORIGIN, front, onY);
      assert last in ms;
      StepFitsWithin(After(ORIGIN, front, onY), Along(last, onY), Alpha(last), lo, hi);
    }
  }

  lemma WideRangeOverflows(lo: int, hi: int)
    requires -0x8000 <= lo <= 0 <= hi < 0x8000 && hi - lo > 0x7FFF
    ensures !RunFits(ORIGIN, [Motion(lo, hi), Motion(hi, lo)], false)
  {
    hide Quot;
    var one, ms := [Motion(lo, hi)], [Motion(lo, hi), Motion(hi, lo)];
    assert ms[..1] == one && one[..0] == [];
    PullBetween(0, lo, 256);
    hide AxisOut, Pull;
    var a := After(ORIGIN, one, false);
    assert After(ORIGIN, one[..0], false) == ORIGIN;
    assert Alpha(one[0]) == 256 && Alpha(ms[1]) == 256 by { assert Speed(one[0]) >= 8 && Speed(ms[1]) >= 8; }
    assert a.state == lo * 256;
    assert !StepFits(a, hi, 256);
  }

  /** The smoothing is free of overflow exactly when the sensor's largest swing is at most 32767 counts. */
  lemma OverflowBound(lo: int, hi: int)
    requires -0x8000 <= lo <= 0 <= hi < 0x8000
    ensures hi - lo <= 0x7FFF <==> forall ms, onY | Ranged(ms, lo, hi) :: RunFits(ORIGIN, ms, onY)
  {
    if hi - lo <= 0x7FFF {
      forall ms, onY | Ranged(ms, lo, hi)
        ensures RunFits(ORIGIN, ms, onY)
      {
        NarrowRangeFits(ms, onY, lo, hi);
      }
    } else {
      WideRangeOverflows(lo, hi);
      assert Ranged([Motion(lo, hi), Motion(hi, lo)], lo, hi);
    }
  }

  // ---- Silence ----

  function Silence(n: nat): (ms: seq<Motion>) { seq(n, i => STILL) }

  /** The state after one more sample without motion. */
  function Coast(state: int): (next: int)
    ensures if state > 6 then 6 <= next < state else if state < -6 then state < next <= -6 else next == state
  {
    state - Quot(state * ALPHA_MIN)
  }

  lemma AfterOneMore(a: Axis, ms: seq<Motion>, last: Motion, onY: bool)
    ensures After(a, ms + [last], onY) == AxisNext(After(a, ms, onY), Along(last, onY), Alpha(last))
    ensures Travelled(a, ms + [last], onY) == Travelled(a, ms, onY) + After(a, ms + [last], onY).state
  {
    hide AxisNext, Alpha, Along;
    assert (ms + [last])[..|ms|] == ms;
  }

  lemma SilenceGrows(n: nat)
    requires n > 0
    ensures Silence(n) == Silence(n - 1) + [STILL]
  {
  }

  lemma SilenceCoasts(a: Axis, n: nat, onY: bool)
    requires n > 0
    ensures After(a, Silence(n), onY).state == Coast(After(a, Silence(n - 1), onY).state)
    ensures Travelled(a, Silence(n), onY) == Travelled(a, Silence(n - 1), onY) + After(a, Silence(n), onY).state
  {
    hide *;
    SilenceGrows(n);
    AfterOneMore(a, Silence(n - 1), STILL, onY);
    StepWithoutMotion(After(a, Silence(n - 1), onY), Along(STILL, onY), Alpha(STILL));
    StillAlong(onY);
  }

  lemma StillAlong(onY: bool)
    ensures Along(STILL, onY) == 0
  {
  }

  lemma StepWithoutMotion(a: Axis, d: int, alpha: int)
    ensures d == 0 && alpha == ALPHA_MIN ==> AxisNext(a, d, alpha).state == Coast(a.state)
  {
    PullWithoutMotion(a.state, d, alpha);
    hide Pull, Coast, Quot;
  }

  lemma PullWithoutMotion(state: int, d: int, alpha: int)
    ensures d == 0 && alpha == ALPHA_MIN ==> Pull(state, d, alpha) == Coast(state)
  {
  }

  function Settled(state: int): int { if state > 6 then 6 else if state < -6 then -6 else state }

  /** Without motion the state shrinks strictly and keeps its sign, but only until it is 6 away from 0 at most. */
  lemma {:induction false} SettlesAtSix(a: Axis, n: nat, onY: bool)
    ensures var state := After(a, Silence(n), onY).state;
            && Settled(state) == Settled(a.state)
            && (Abs(state) <= 6 || Abs(state) + n <= Abs(a.state))
  {
    if n == 0 {
      hide AxisNext;
    } else {
      hide Coast, After;
      SettlesAtSix(a, n - 1, onY);
      SilenceCoasts(a, n, onY);
    }
  }

  /** After n silent samples from `start` the state has kept its sign, and the distance has grown by at least n. */
  predicate Drifted(start: int, n: nat, state: int, d: int) {
    && (start > 0 ==> state > 0 && d >= n)
    && (start < 0 ==> state < 0 && d + n <= 0)
    && (start == 0 ==> state == 0 && d == 0)
  }

  lemma DriftsOn(start: int, n: nat, state: int, d: int)
    requires Drifted(start, n, state, d)
    ensures Drifted(start, n + 1, Coast(state), d + Coast(state))
  {
    hide Coast;
  }

  lemma {:induction false} SilenceTravels(a: Axis, n: nat, onY: bool)
    ensures Drifted(a.state, n, After(a, Silence(n), onY).state, Travelled(a, Silence(n), onY))
  {
    if n == 0 {
      hide AxisNext;
    } else {
      hide *;
      SilenceTravels(a, n - 1, onY);
      SilenceCoasts(a, n, onY);
      DriftsOn(a.state, n - 1, After(a, Silence(n - 1), onY).state, Travelled(a, Silence(n - 1), onY));
    }
  }

  ghost predicate DriftsAtMost(a: Axis, onY: bool, bound: int) {
    forall n: nat :: Abs(Total(a, Silence(n), onY)) <= bound
  }

  lemma DriftExceeds(a: Axis, onY: bool, bound: int)
    requires -256 < a.rest < 256 && a.state != 0
    ensures !DriftsAtMost(a, onY, bound)
  {
    hide Travelled, Total, After;
    var n := 256 * Abs(bound) + 512;
    SilenceTravels(a, n, onY);
    RoundingLosesNothing(a, Silence(n), onY);
    assert Abs(Total(a, Silence(n), onY)) > bound;
  }

  /** The pointer comes to rest with the hand exactly if the state is 0; otherwise it drifts without end. */
  lemma RestsOnlyAtZero(a: Axis, onY: bool)
    requires -256 < a.rest < 256
    ensures a.state == 0 <==> exists bound :: DriftsAtMost(a, onY, bound)
  {
    hide Travelled, Total, After;
    if a.state == 0 {
      forall n: nat
        ensures Abs(Total(a, Silence(n), onY)) <= 1
      {
        SilenceTravels(a, n, onY);
        RoundingLosesNothing(a, Silence(n), onY);
      }
      assert DriftsAtMost(a, onY, 1);
    } else {
      forall bound
        ensures !DriftsAtMost(a, onY, bound)
      {
        DriftExceeds(a, onY, bound);
      }
    }
  }

  /** One count, moved slowly, is enough to start the drift. */
  lemma OneCountDrifts()
    ensures After(ORIGIN, [Motion(1, 0)], false) == Axis(65, 65)
  {
    var ms := [Motion(1, 0)];
    assert After(ORIGIN, ms[..0], false) == ORIGIN;
    assert Weight(1) == 65;
  }
}
