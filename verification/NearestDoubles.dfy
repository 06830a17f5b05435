/** Rounding to the nearest multiple at the finest scale that holds a number: the assumptions about the
    rounding of double arithmetic are met by some function. */
module NearestDoubles {
  import opened Doubles

  const LIMIT := 9007199254740992.0

  lemma {:induction false} ScalesMatch(a: nat)
    ensures Doubled(1.0, a) >= 1.0 && Halved(LIMIT, a) > 0.0
    ensures Halved(LIMIT, a) * Doubled(1.0, a) == LIMIT
  {
    if a > 0 {
      ScalesMatch(a - 1);
      HalfTimesTwice(Halved(LIMIT, a - 1), Doubled(1.0, a - 1));
    }
  }

  lemma HalfTimesTwice(h: real, d: real)
    ensures h / 2.0 * (2.0 * d) == h * d
  {}

  lemma {:induction false} ScalesGrow(a: nat, b: nat)
    requires a <= b
    ensures Doubled(1.0, a) <= Doubled(1.0, b) && Halved(LIMIT, b) <= Halved(LIMIT, a)
    ensures a < b ==> Halved(LIMIT, b) <= Halved(LIMIT, a) / 2.0
    decreases b - a
  {
    ScalesMatch(a);
    ScalesMatch(b);
    if a < b {
      ScalesMatch(b - 1);
      ScalesGrow(a, b - 1);
    }
  }

  /** The finest scale, from `a` down, whose limit `x` keeps. */
  function Finest(x: real, a: nat): (b: nat)
    ensures b <= a && (b > 0 ==> Abs(x) <= Halved(LIMIT, b))
    ensures forall c: nat :: b < c <= a ==> Abs(x) > Halved(LIMIT, c)
  {
    if a == 0 || Abs(x) <= Halved(LIMIT, a) then a else Finest(x, a - 1)
  }

  lemma RoundIsNear(z: real)
    ensures Abs(Round(z) as real - z) <= 0.5
  {}

  lemma AbsTimes(e: real, d: real)
    requires d > 0.0
    ensures Abs(e) * d == Abs(e * d)
  {}

  lemma DivTimes(n: real, d: real)
    requires d >= 1.0
    ensures n / d * d == n
  {}

  lemma Distributes(q: real, x: real, d: real)
    ensures (q - x) * d == q * d - x * d
  {}

  predicate IsMultipleNear(x: real, v: real, d: real) {
    v * d == Round(x * d) as real && Abs(v - x) * d <= 0.5
  }

  /** The nearest multiple of 1/d. */
  lemma NearestMultiple(x: real, d: real) returns (v: real)
    requires d >= 1.0
    ensures IsMultipleNear(x, v, d) && (x == 0.0 ==> v == 0.0)
  {
    v := Round(x * d) as real / d;
    RoundIsNear(x * d);
    DivTimes(Round(x * d) as real, d);
    Distributes(v, x, d);
    AbsTimes(v - x, d);
  }

  lemma Coarser(e: real, c: real, d: real)
    requires 0.0 <= e && c <= d && e * d <= 0.5
    ensures e * c <= 0.5
  {}

  lemma FinestIsFiner(x: real, a: nat)
    requires a <= 52 && Abs(x) <= Halved(LIMIT, a)
    ensures a <= Finest(x, 52)
  {}

  lemma WholeAtLimit(x: real, h: real, d: real)
    requires Abs(x) == h && h * d == LIMIT
    ensures x * d == LIMIT || x * d == -LIMIT
  {}

  lemma HalfOfWhole(v: real, c: real)
    requires v * (2.0 * c) == LIMIT || v * (2.0 * c) == -LIMIT
    ensures IsWhole(v * c)
  {
    assert v * (2.0 * c) == 2.0 * (v * c);
  }

  lemma MuchFiner(a: nat, b: nat)
    requires b > a + 1
    ensures Halved(LIMIT, b) < Halved(LIMIT, a) / 2.0
  {
    ScalesGrow(a + 1, b);
    ScalesMatch(a);
  }

  /** In the upper half of a scale the finest scale is that one, or the next one and its very limit. */
  lemma FinestInUpperHalf(x: real, a: nat)
    requires a <= 52 && Halved(LIMIT, a) / 2.0 <= Abs(x) <= Halved(LIMIT, a)
    ensures var b := Finest(x, 52); b == a || (b == a + 1 && Abs(x) == Halved(LIMIT, b))
  {
    var b := Finest(x, 52);
    FinestIsFiner(x, a);
    if b > a + 1 { MuchFiner(a, b); }
  }

  lemma RoundOfLimit(z: real)
    requires z == LIMIT || z == -LIMIT
    ensures Round(z) as real == z
  {}

  lemma WholeAtHalfScale(x: real, v: real, h: real, c: real, d: real)
    requires d == 2.0 * c && Abs(x) == h && h * d == LIMIT && v * d == Round(x * d) as real
    ensures IsWhole(v * c)
  {
    WholeAtLimit(x, h, d);
    RoundOfLimit(x * d);
    HalfOfWhole(v, c);
  }

  lemma CoarserScale(x: real, v: real, limit: real, c: real, d: real)
    requires 1.0 <= c <= d && Abs(v - x) * d <= 0.5 && (Abs(x) >= limit / 2.0 ==> IsWhole(v * c))
    ensures RoundsHere(v, x, limit, c)
  {
    Coarser(Abs(v - x), c, d);
  }

  lemma RightAtNext(x: real, v: real, a: nat, c: real, d: real)
    requires c == Doubled(1.0, a) && d == Doubled(1.0, a + 1)
    requires Abs(x) == Halved(LIMIT, a + 1) && IsMultipleNear(x, v, d)
    ensures RoundsHere(v, x, Halved(LIMIT, a), c)
  {
    ScalesMatch(a);
    ScalesMatch(a + 1);
    WholeAtHalfScale(x, v, Halved(LIMIT, a + 1), c, d);
    CoarserScale(x, v, Halved(LIMIT, a), c, d);
  }

  lemma RightInLowerHalf(x: real, v: real, b: nat, d: real, a: nat, c: real)
    requires a <= b && c == Doubled(1.0, a) && d == Doubled(1.0, b)
    requires Abs(x) < Halved(LIMIT, a) / 2.0 && IsMultipleNear(x, v, d)
    ensures RoundsHere(v, x, Halved(LIMIT, a), c)
  {
    ScalesGrow(a, b);
    ScalesMatch(a);
    CoarserScale(x, v, Halved(LIMIT, a), c, d);
  }

  /** The nearest multiple at the finest scale is right at every coarser one. */
  lemma FinestIsRight(x: real, v: real, b: nat, d: real, a: nat, c: real)
    requires b == Finest(x, 52) && d == Doubled(1.0, b) && a <= 52 && Abs(x) <= Halved(LIMIT, a)
    requires c == Doubled(1.0, a) && IsMultipleNear(x, v, d)
    ensures RoundsHere(v, x, Halved(LIMIT, a), c)
  {
    FinestIsFiner(x, a);
    if Abs(x) < Halved(LIMIT, a) / 2.0 {
      RightInLowerHalf(x, v, b, d, a, c);
    } else {
      FinestInUpperHalf(x, a);
      if b == a + 1 { RightAtNext(x, v, a, c, d); }
    }
  }

  ghost predicate IsNearest(x: real, v: real) {
    (x == 0.0 ==> v == 0.0)
    && forall a: nat :: a <= 52 && Abs(x) <= Halved(LIMIT, a) ==> RoundsHere(v, x, Halved(LIMIT, a), Doubled(1.0, a))
  }

  lemma NearestExists(x: real) returns (v: real)
    ensures IsNearest(x, v)
  {
    var b := Finest(x, 52);
    ScalesMatch(b);
    v := NearestMultiple(x, Doubled(1.0, b));
    forall a: nat | a <= 52 && Abs(x) <= Halved(LIMIT, a)
      ensures RoundsHere(v, x, Halved(LIMIT, a), Doubled(1.0, a))
    {
      FinestIsRight(x, v, b, Doubled(1.0, b), a, Doubled(1.0, a));
    }
  }

  ghost function Nearest(x: real): (v: real)
    ensures IsNearest(x, v)
  {
    assert exists v :: IsNearest(x, v) by { var v := NearestExists(x); }
    var v: real :| IsNearest(x, v);
    v
  }

  /** Some function is a rounding, so what is assumed of roundings is not contradictory. */
  lemma RoundingExists() returns (fl: real -> real)
    ensures IsRounding(fl)
  {
    fl := x => Nearest(x);
    assert IsNearest(0.0, fl(0.0));
    forall a: nat | a <= 52 ensures RoundsIn(fl, Halved(LIMIT, a), Doubled(1.0, a)) {
      forall x: real | Abs(x) <= Halved(LIMIT, a)
        ensures RoundsHere(fl(x), x, Halved(LIMIT, a), Doubled(1.0, a))
      {
        assert IsNearest(x, fl(x));
      }
    }
  }
}
