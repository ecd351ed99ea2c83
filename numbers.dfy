/** JavaScript numbers as exact reals extended with the IEEE-754 special values,
    and the `toFixed`-then-`parseFloat` rounding the dashboard applies to results. */
module Numbers {

  /** A JavaScript number: finite (as an exact real), +Infinity, -Infinity or NaN.
      Binary floating-point rounding and the sign of zero are not represented. */
  datatype ExtReal = Fin(r: real) | PosInf | NegInf | NaN

  function Abs(x: real): (r: real)
    ensures r >= 0.0 && (r == x || r == -x)
  {
    if x < 0.0 then -x else x
  }

  function Neg(x: ExtReal): (r: ExtReal)
    ensures x.Fin? <==> r.Fin?
    ensures x.Fin? ==> r.r == -x.r
  {
    match x
    case Fin(a) => Fin(-a)
    case PosInf => NegInf
    case NegInf => PosInf
    case NaN => NaN
  }

  /** `x + y` */
  function Add(x: ExtReal, y: ExtReal): (r: ExtReal)
    ensures x.NaN? || y.NaN? ==> r.NaN?
    ensures x.Fin? && y.Fin? ==> r == Fin(x.r + y.r)
  {
    match (x, y)
    case (Fin(a), Fin(b)) => Fin(a + b)
    case (NaN, _) => NaN
    case (_, NaN) => NaN
    case (PosInf, NegInf) => NaN
    case (NegInf, PosInf) => NaN
    case (PosInf, _) => PosInf
    case (NegInf, _) => NegInf
    case (_, PosInf) => PosInf
    case (_, NegInf) => NegInf
  }

  /** `x - y` */
  function Sub(x: ExtReal, y: ExtReal): (r: ExtReal)
    ensures x.Fin? && y.Fin? ==> r == Fin(x.r - y.r)
  {
    Add(x, Neg(y))
  }

  /** -1, 0 or 1: the sign of a non-NaN number (zero counts as +0). */
  function Sign(x: ExtReal): int
    requires !x.NaN?
  {
    match x
    case Fin(a) => if a > 0.0 then 1 else if a < 0.0 then -1 else 0
    case PosInf => 1
    case NegInf => -1
  }

  function InfOfSign(s: int): ExtReal
  {
    if s > 0 then PosInf else NegInf
  }

  /** `x * y`; an infinity times zero is NaN. */
  function Mul(x: ExtReal, y: ExtReal): (r: ExtReal)
    ensures x.NaN? || y.NaN? ==> r.NaN?
    ensures x.Fin? && y.Fin? ==> r == Fin(x.r * y.r)
  {
    if x.NaN? || y.NaN? then NaN
    else if x.Fin? && y.Fin? then Fin(x.r * y.r)
    else if Sign(x) == 0 || Sign(y) == 0 then NaN
    else InfOfSign(Sign(x) * Sign(y))
  }

  /** `x / y`; a non-zero finite number over zero is an infinity, 0/0 and
      Infinity/Infinity are NaN, and a finite number over an infinity is zero. */
  function Div(x: ExtReal, y: ExtReal): (r: ExtReal)
    ensures x.NaN? || y.NaN? ==> r.NaN?
    ensures x.Fin? && y.Fin? && y.r != 0.0 ==> r == Fin(x.r / y.r)
    ensures x.Fin? && y == Fin(0.0) ==> !r.Fin?
  {
    if x.NaN? || y.NaN? then NaN
    else if x.Fin? && y.Fin? then
      if y.r != 0.0 then Fin(x.r / y.r)
      else if x.r == 0.0 then NaN
      else InfOfSign(Sign(x))
    else if x.Fin? then Fin(0.0)
    else if !y.Fin? then NaN
    else InfOfSign(Sign(x) * (if Sign(y) == 0 then 1 else Sign(y)))
  }

  function PowNat(b: real, n: nat): real
  {
    if n == 0 then 1.0 else b * PowNat(b, n - 1)
  }

  lemma {:induction false} PowNatNonZero(b: real, n: nat)
    requires b != 0.0
    ensures PowNat(b, n) != 0.0
  {
    if n > 0 {
      PowNatNonZero(b, n - 1);
    }
  }

  /** `x ** y` for the cases this model covers: any base to the power zero is 1,
      and a finite base to a finite integer power is exact. Every other case is
      NaN here (see README, "Left out"). */
  function Pow(x: ExtReal, y: ExtReal): (r: ExtReal)
    ensures y == Fin(0.0) ==> r == Fin(1.0)
  {
    if y == Fin(0.0) then Fin(1.0)
    else if x.Fin? && y.Fin? && y.r == y.r.Floor as real then
      var n := y.r.Floor;
      if n >= 0 then Fin(PowNat(x.r, n))
      else if x.r == 0.0 then PosInf
      else
        PowNatNonZero(x.r, -n);
        Fin(1.0 / PowNat(x.r, -n))
    else NaN
  }

  /** The integer nearest to `y`, halves rounded away from zero. */
  function RoundHalfAway(y: real): int
  {
    if y >= 0.0 then (y + 0.5).Floor else -((-y + 0.5).Floor)
  }

  /** `parseFloat(x.toFixed(d))` on the exact value of a finite `x`, where
      `scale` is 10^d: the nearest multiple of 1/scale, halves rounded away
      from zero. */
  function RoundAt(x: real, scale: real): (r: real)
    requires scale > 0.0
    ensures r * scale == RoundHalfAway(x * scale) as real
  {
    (RoundHalfAway(x * scale) as real) / scale
  }

  /** `parseFloat(x.toFixed(2))` */
  function Round2(x: real): real { RoundAt(x, 100.0) }

  /** `parseFloat(x.toFixed(1))` */
  function Round1(x: real): real { RoundAt(x, 10.0) }

  /** `parseFloat(x.toFixed(2))` on any number: infinities and NaN pass through. */
  function Round2Ext(x: ExtReal): (r: ExtReal)
    ensures x.Fin? <==> r.Fin?
    ensures !x.Fin? ==> r == x
  {
    if x.Fin? then Fin(Round2(x.r)) else x
  }

  lemma RoundHalfAwayClose(y: real)
    ensures Abs(RoundHalfAway(y) as real - y) <= 0.5
  {
  }

  lemma RoundHalfAwayOfInt(n: int)
    ensures RoundHalfAway(n as real) == n
  {
  }

  lemma RoundHalfAwayMonotone(y: real, z: real)
    requires y <= z
    ensures RoundHalfAway(y) <= RoundHalfAway(z)
  {
    if y >= 0.0 {
      assert (y + 0.5).Floor as real <= y + 0.5 <= z + 0.5 < (z + 0.5).Floor as real + 1.0;
    } else if z < 0.0 {
      assert (-z + 0.5).Floor as real <= -z + 0.5 <= -y + 0.5 < (-y + 0.5).Floor as real + 1.0;
    }
  }

  lemma ScaleMonotone(x: real, y: real, p: real)
    requires x <= y && p > 0.0
    ensures x * p <= y * p
  {
    assert y * p - x * p == (y - x) * p;
  }

  lemma ScaleStrict(x: real, y: real, p: real)
    requires x < y && p > 0.0
    ensures x * p < y * p
  {
    assert y * p - x * p == (y - x) * p;
  }

  lemma DivMonotone(a: real, b: real, p: real)
    requires a <= b && p > 0.0
    ensures a / p <= b / p
  {
    var x, y := a / p, b / p;
    assert x * p == a && y * p == b;
    if x > y {
      ScaleStrict(y, x, p);
    }
  }

  lemma DivSub(a: real, b: real, p: real)
    requires p > 0.0
    ensures a / p - b == (a - b * p) / p
  {
    var x := a / p;
    assert x * p == a;
    var z := (a - b * p) / p;
    assert z * p == a - b * p;
    assert (x - b) * p == a - b * p;
    if z < x - b {
      ScaleStrict(z, x - b, p);
    } else if z > x - b {
      ScaleStrict(x - b, z, p);
    }
  }

  /** Rounding never moves a value by more than half a unit of the last digit. */
  lemma RoundAtClose(x: real, scale: real)
    requires scale > 0.0
    ensures Abs(RoundAt(x, scale) - x) <= 0.5 / scale
  {
    var q := RoundHalfAway(x * scale) as real;
    RoundHalfAwayClose(x * scale);
    DivSub(q, x, scale);
    var e := q - x * scale;
    assert RoundAt(x, scale) - x == e / scale;
    if e >= 0.0 {
      DivMonotone(e, 0.5, scale);
    } else {
      DivMonotone(-e, 0.5, scale);
      assert (-e) / scale == -(e / scale);
    }
  }

  /** A value that already is a whole number `n` of units 1/scale is unchanged. */
  lemma RoundAtExact(x: real, n: int, scale: real)
    requires scale > 0.0 && x * scale == n as real
    ensures RoundAt(x, scale) == x
  {
    RoundHalfAwayOfInt(n);
    var r := RoundAt(x, scale);
    assert r * scale == x * scale;
    if r < x {
      ScaleStrict(r, x, scale);
    } else if r > x {
      ScaleStrict(x, r, scale);
    }
  }

  /** Rounding twice is rounding once: `toFixed` results are stable under `toFixed`. */
  lemma RoundAtIdempotent(x: real, scale: real)
    requires scale > 0.0
    ensures RoundAt(RoundAt(x, scale), scale) == RoundAt(x, scale)
  {
    RoundAtExact(RoundAt(x, scale), RoundHalfAway(x * scale), scale);
  }

  /** Rounding keeps the (weak) order of values. */
  lemma RoundAtMonotone(x: real, y: real, scale: real)
    requires x <= y && scale > 0.0
    ensures RoundAt(x, scale) <= RoundAt(y, scale)
  {
    ScaleMonotone(x, y, scale);
    RoundHalfAwayMonotone(x * scale, y * scale);
    DivMonotone(RoundHalfAway(x * scale) as real, RoundHalfAway(y * scale) as real, scale);
  }

  /** The two-decimal rounding used for formula results and progress figures. */
  lemma Round2Properties(x: real, y: real)
    ensures Abs(Round2(x) - x) <= 0.005
    ensures Round2(Round2(x)) == Round2(x)
    ensures x <= y ==> Round2(x) <= Round2(y)
  {
    RoundAtClose(x, 100.0);
    RoundAtIdempotent(x, 100.0);
    if x <= y {
      RoundAtMonotone(x, y, 100.0);
    }
  }

  /** The one-decimal rounding used for the player leaderboard. */
  lemma Round1Properties(x: real, y: real)
    ensures Abs(Round1(x) - x) <= 0.05
    ensures Round1(Round1(x)) == Round1(x)
    ensures x <= y ==> Round1(x) <= Round1(y)
  {
    RoundAtClose(x, 10.0);
    RoundAtIdempotent(x, 10.0);
    if x <= y {
      RoundAtMonotone(x, y, 10.0);
    }
  }

  /** Concrete values: 22.857... rounds to 22.86 and 2.345 rounds up to 2.35. */
  lemma Round2Examples()
    ensures Round2(160.0 / 7.0) == 22.86
    ensures Round2(2.345) == 2.35
    ensures Round2(-2.345) == -2.35
  {
  }
}
