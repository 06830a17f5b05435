/** Rounding of double-precision arithmetic (binary64 of IEEE 754), between zero and 2^53: where whole
    multiples of 2^-a fill the 53 bits, a result is a nearest one of them. Ties may go either way. */
module Doubles {

  function Abs(x: real): real {
    if x < 0.0 then -x else x
  }

  /** Round half away from zero. */
  function Round(x: real): int {
    if x >= 0.0 then (x + 0.5).Floor else -((-x + 0.5).Floor)
  }

  predicate IsWhole(x: real) {
    x.Floor as real == x
  }

  predicate RoundsHere(v: real, x: real, limit: real, scale: real) {
    Abs(v - x) * scale <= 0.5 && (Abs(x) >= limit / 2.0 ==> IsWhole(v * scale))
  }

  /** Up to `limit` the doubles are at most 1/scale apart, and in its upper half exactly that. */
  ghost predicate RoundsIn(fl: real -> real, limit: real, scale: real) {
    forall x: real :: Abs(x) <= limit ==> RoundsHere(fl(x), x, limit, scale)
  }

  function Doubled(x: real, a: nat): real {
    if a == 0 then x else 2.0 * Doubled(x, a - 1)
  }

  function Halved(x: real, a: nat): real {
    if a == 0 then x else Halved(x, a - 1) / 2.0
  }

  ghost predicate IsRounding(fl: real -> real) {
    fl(0.0) == 0.0 && forall a: nat :: a <= 52 ==> RoundsIn(fl, Halved(9007199254740992.0, a), Doubled(1.0, a))
  }

  /** The doubles are what rounding leaves alone. */
  ghost predicate IsDouble(fl: real -> real, x: real) {
    fl(x) == x
  }

  // -- Two decimals -----------------------------------------------------------

  /** `(x * 100.0).round() / 100.0`. */
  function Cents(fl: real -> real, x: real): real {
    fl(Round(fl(x * 100.0)) as real / 100.0)
  }

  /** 2^45, from where doubles are no finer than 1/128. */
  const COARSE := 35184372088832.0

  lemma Binades(fl: real -> real)
    requires IsRounding(fl)
    ensures RoundsIn(fl, 35184372088832.0, 256.0)
    ensures RoundsIn(fl, 70368744177664.0, 128.0)
    ensures RoundsIn(fl, 4503599627370496.0, 2.0)
  {
    assert Halved(9007199254740992.0, 8) == 35184372088832.0 && Doubled(1.0, 8) == 256.0;
    assert Halved(9007199254740992.0, 7) == 70368744177664.0 && Doubled(1.0, 7) == 128.0;
    assert Halved(9007199254740992.0, 1) == 4503599627370496.0 && Doubled(1.0, 1) == 2.0;
  }

  lemma RoundedTo256ths(fl: real -> real, x: real) returns (v: real)
    requires IsRounding(fl) && Abs(x) <= 35184372088832.0
    ensures v == fl(x) && RoundsHere(v, x, 35184372088832.0, 256.0)
  {
    Binades(fl);
    v := fl(x);
  }

  lemma RoundedTo128ths(fl: real -> real, x: real) returns (v: real)
    requires IsRounding(fl) && Abs(x) <= 70368744177664.0
    ensures v == fl(x) && RoundsHere(v, x, 70368744177664.0, 128.0)
  {
    Binades(fl);
    v := fl(x);
  }

  lemma RoundedToHalves(fl: real -> real, x: real) returns (v: real)
    requires IsRounding(fl) && Abs(x) <= 4503599627370496.0
    ensures v == fl(x) && RoundsHere(v, x, 4503599627370496.0, 2.0)
  {
    Binades(fl);
    v := fl(x);
  }

  lemma Product(fl: real -> real, x: real) returns (p: real)
    requires IsRounding(fl) && Abs(x) <= 4503599627370496.0
    ensures p == fl(x) && Abs(p - x) <= 0.25
  {
    p := RoundedToHalves(fl, x);
  }

  lemma Quotient(fl: real -> real, x: real) returns (q: real)
    requires IsRounding(fl) && Abs(x) <= 35184372088832.0
    ensures q == fl(x) && Abs(q - x) <= 0.001953125
  {
    q := RoundedTo256ths(fl, x);
  }

  lemma RoundBelow(x: real, z: real)
    requires Abs(x - z) <= 0.25 && Abs(z) <= 3518437208883200.0
    ensures Abs(Round(x) as real) <= 3518437208883200.0
  {}

  lemma BackToWhole(n: int, q: real, p: real)
    requires Abs(q - n as real / 100.0) <= 0.001953125 && Abs(p - q * 100.0) <= 0.25
    ensures Round(p) == n
  {
    assert Abs(p - n as real) < 0.5;
  }

  lemma SameCents(fl: real -> real, n: int)
    requires IsRounding(fl) && Abs(n as real) <= 3518437208883200.0
    ensures Round(fl(fl(n as real / 100.0) * 100.0)) == n
  {
    var q := Quotient(fl, n as real / 100.0);
    var p := Product(fl, q * 100.0);
    BackToWhole(n, q, p);
  }

  /** Up to 2^45 the errors of one more multiplication and division stay under half a cent. */
  lemma FineCents(fl: real -> real, x: real)
    requires IsRounding(fl) && Abs(x) <= COARSE
    ensures Cents(fl, Cents(fl, x)) == Cents(fl, x)
  {
    var p := Product(fl, x * 100.0);
    RoundBelow(p, x * 100.0);
    SameCents(fl, Round(p));
  }

  lemma WholesApart(a: real, b: real)
    requires IsWhole(a) && IsWhole(b) && Abs(a - b) < 1.0
    ensures a == b
  {
    IntegersApart(a.Floor, b.Floor);
  }

  lemma IntegersApart(i: int, j: int)
    requires Abs(i as real - j as real) < 1.0
    ensures i == j
  {
    assert (i - j) as real == i as real - j as real;
  }

  /** The largest GPS accuracy an edit may state. */
  const MAX_GPS_ACCURACY_M := 20000000.0

  lemma AccuracyBinade(fl: real -> real)
    requires IsRounding(fl)
    ensures RoundsIn(fl, 33554432.0, 268435456.0)
  {
    AccuracyScale();
  }

  lemma AccuracyScale()
    ensures Halved(9007199254740992.0, 28) == 33554432.0
    ensures Doubled(1.0, 28) == 268435456.0
    ensures Halved(9007199254740992.0, 21) == 4294967296.0
    ensures Doubled(1.0, 21) == 2097152.0
  {
    assert Halved(9007199254740992.0, 14) == 549755813888.0;
    assert Halved(9007199254740992.0, 21) == 4294967296.0;
    assert Doubled(1.0, 14) == 16384.0;
    assert Doubled(1.0, 21) == 2097152.0;
  }

  lemma InAccuracyBinade(fl: real -> real, x: real) returns (q: real)
    requires IsRounding(fl) && Abs(x) <= MAX_GPS_ACCURACY_M
    ensures q == fl(x) && RoundsHere(q, x, 33554432.0, 268435456.0)
  {
    AccuracyBinade(fl);
    q := fl(x);
  }

  lemma TinyStep(e: real)
    requires e * 268435456.0 <= 0.5
    ensures e < 0.005
  {}

  lemma NearAccuracy(fl: real -> real, x: real) returns (q: real)
    requires IsRounding(fl) && Abs(x) <= MAX_GPS_ACCURACY_M
    ensures q == fl(x) && Abs(q - x) < 0.005
  {
    q := InAccuracyBinade(fl, x);
    TinyStep(Abs(q - x));
  }

  lemma MaxAccuracyIsExact(fl: real -> real)
    requires IsRounding(fl)
    ensures fl(MAX_GPS_ACCURACY_M) == MAX_GPS_ACCURACY_M
  {
    var q := InAccuracyBinade(fl, MAX_GPS_ACCURACY_M);
    WholesApart(q * 268435456.0, MAX_GPS_ACCURACY_M * 268435456.0);
  }

  /** Cents stay in the accuracy range. */
  lemma CentsInRange(fl: real -> real, x: real)
    requires IsRounding(fl) && 0.0 <= x <= MAX_GPS_ACCURACY_M
    ensures 0.0 <= Cents(fl, x) <= MAX_GPS_ACCURACY_M
  {
    var p := Product(fl, x * 100.0);
    WholeInRange(x, p);
    QuotientInRange(fl, Round(p));
  }

  function Hundredths(n: int): real {
    n as real / 100.0
  }

  /** The double of a whole number of hundredths that is nearest to x, up to the error of one
      multiplication. */
  ghost predicate IsHundredthOf(fl: real -> real, r: real, x: real) {
    Abs(r - x) <= 0.005001
    && exists n: int :: r == fl(Hundredths(n)) && Abs(n as real - x * 100.0) <= 0.500001
  }

  lemma RoundedFinely(fl: real -> real, x: real) returns (v: real)
    requires IsRounding(fl) && Abs(x) <= 2147483648.0
    ensures v == fl(x) && Abs(v - x) <= 0.0000002
  {
    AccuracyScale();
    assert Halved(9007199254740992.0, 22) == 2147483648.0 && Doubled(1.0, 22) == 4194304.0;
    assert RoundsIn(fl, 2147483648.0, 4194304.0);
    v := fl(x);
    assert RoundsHere(v, x, 2147483648.0, 4194304.0);
  }

  /** Up to twenty million. */
  lemma CentsAreHundredths(fl: real -> real, x: real)
    requires IsRounding(fl) && Abs(x) <= MAX_GPS_ACCURACY_M
    ensures IsHundredthOf(fl, Cents(fl, x), x)
  {
    var p := RoundedFinely(fl, x * 100.0);
    var n := Round(p);
    assert Abs(n as real - p) <= 0.5;
    var q := RoundedFinely(fl, Hundredths(n));
    assert Abs(n as real - x * 100.0) <= 0.500001;
    assert Cents(fl, x) == fl(Hundredths(n));
  }

  lemma QuotientInRange(fl: real -> real, n: int)
    requires IsRounding(fl) && 0 <= n <= 2_000_000_000
    ensures 0.0 <= fl(n as real / 100.0) <= MAX_GPS_ACCURACY_M
  {
    if n == 2_000_000_000 {
      MaxAccuracyIsExact(fl);
    } else if n == 0 {
      assert n as real / 100.0 == 0.0;
    } else {
      var q := NearAccuracy(fl, n as real / 100.0);
    }
  }

  lemma WholeInRange(x: real, p: real)
    requires 0.0 <= x <= MAX_GPS_ACCURACY_M && Abs(p - x * 100.0) <= 0.25
    ensures 0 <= Round(p) <= 2_000_000_000
  {}

  // -- Where two decimals are finer than the doubles --------------------------

  lemma InCoarseBinade(fl: real -> real, z: real) returns (q: real)
    requires IsRounding(fl) && 35184372088832.0 <= Abs(z) <= 70368744177664.0
    ensures q == fl(z) && Abs(q - z) * 128.0 <= 0.5 && IsWhole(q * 128.0)
  {
    q := RoundedTo128ths(fl, z);
  }

  lemma InHalvesBinade(fl: real -> real, z: real) returns (p: real)
    requires IsRounding(fl) && 2251799813685248.0 <= Abs(z) <= 4503599627370496.0
    ensures p == fl(z) && Abs(p - z) * 2.0 <= 0.5 && IsWhole(p * 2.0)
  {
    p := RoundedToHalves(fl, z);
  }

  lemma RoundsToStep(fl: real -> real, z: real, v: real)
    requires IsRounding(fl) && 35184372088832.0 <= Abs(z) <= 70368744177664.0
    requires IsWhole(v * 128.0) && Abs(v - z) < 0.00390625
    ensures fl(z) == v
  {
    var q := InCoarseBinade(fl, z);
    WholesApart(q * 128.0, v * 128.0);
  }

  lemma RoundsToHalf(fl: real -> real, z: real, v: real)
    requires IsRounding(fl) && 2251799813685248.0 <= Abs(z) <= 4503599627370496.0
    requires IsWhole(v * 2.0) && Abs(v - z) < 0.25
    ensures fl(z) == v
  {
    var p := InHalvesBinade(fl, z);
    WholesApart(p * 2.0, v * 2.0);
  }

  /** The result for `x`, from the roundings of the product and of the quotient. */
  lemma CentsOf(fl: real -> real, x: real, product: real, n: int, quotient: real)
    requires fl(x * 100.0) == product && Round(product) == n && fl(n as real / 100.0) == quotient
    ensures Cents(fl, x) == quotient
  {}

  /** The first double whose cents change again when they are taken twice: 2^45 + 1/64. */
  const FIRST_UNSTABLE := 35184372088832.015625

  lemma UnstableCents(fl: real -> real)
    requires IsRounding(fl)
    ensures IsDouble(fl, FIRST_UNSTABLE)
    ensures Cents(fl, FIRST_UNSTABLE) == 35184372088832.0234375
    ensures Cents(fl, 35184372088832.0234375) == 35184372088832.03125
  {
    RoundsToStep(fl, FIRST_UNSTABLE, FIRST_UNSTABLE);
    RoundsToHalf(fl, 3518437208883201.5625, 3518437208883201.5);
    RoundsToStep(fl, 35184372088832.02, 35184372088832.0234375);
    CentsOf(fl, FIRST_UNSTABLE, 3518437208883201.5, 3518437208883202, 35184372088832.0234375);
    RoundsToHalf(fl, 3518437208883202.34375, 3518437208883202.5);
    RoundsToStep(fl, 35184372088832.03, 35184372088832.03125);
    CentsOf(fl, 35184372088832.0234375, 3518437208883202.5, 3518437208883203, 35184372088832.03125);
  }

  /** The only doubles between 2^45 and the first unstable one keep their value. */
  lemma NextToCoarse(fl: real -> real, sign: real)
    requires IsRounding(fl) && (sign == 1.0 || sign == -1.0)
    ensures Cents(fl, sign * 35184372088832.0078125) == sign * 35184372088832.0078125
  {
    var x, n := sign * 35184372088832.0078125, if sign == 1.0 then 3518437208883201 else -3518437208883201;
    RoundsToHalf(fl, x * 100.0, n as real);
    RoundsToStep(fl, n as real / 100.0, x);
    CentsOf(fl, x, n as real, n, x);
  }

  lemma BetweenIsNext(fl: real -> real, x: real)
    requires IsRounding(fl) && IsDouble(fl, x) && COARSE < Abs(x) < FIRST_UNSTABLE
    ensures x == 35184372088832.0078125 || x == -35184372088832.0078125
  {
    var q := InCoarseBinade(fl, x);
    if x > 0.0 { WholesApart(q * 128.0, 4503599627370497.0); } else { WholesApart(q * 128.0, -4503599627370497.0); }
  }

  /** Taking the cents of every double up to a bound again changes nothing, exactly when the bound is
      below 2^45 + 1/64. */
  lemma CentsIdempotentExactly(fl: real -> real, bound: real)
    requires IsRounding(fl)
    ensures (forall x: real :: IsDouble(fl, x) && Abs(x) <= bound ==> Cents(fl, Cents(fl, x)) == Cents(fl, x))
      <==> bound < FIRST_UNSTABLE
  {
    if bound < FIRST_UNSTABLE {
      forall x: real | IsDouble(fl, x) && Abs(x) <= bound ensures Cents(fl, Cents(fl, x)) == Cents(fl, x) {
        StableBelow(fl, x);
      }
    } else {
      UnstableCents(fl);
      assert IsDouble(fl, FIRST_UNSTABLE) && Abs(FIRST_UNSTABLE) <= bound;
    }
  }

  lemma StableBelow(fl: real -> real, x: real)
    requires IsRounding(fl) && IsDouble(fl, x) && Abs(x) < FIRST_UNSTABLE
    ensures Cents(fl, Cents(fl, x)) == Cents(fl, x)
  {
    if Abs(x) <= COARSE {
      FineCents(fl, x);
    } else {
      BetweenIsNext(fl, x);
      NextToCoarse(fl, 1.0);
      NextToCoarse(fl, -1.0);
    }
  }
}
