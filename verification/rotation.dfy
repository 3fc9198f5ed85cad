/** The rotation of a layer: angle normalisation and the sine and cosine polynomials
    (FB/VMCoreAnimationAccelerator.cpp:1226-1264). Floats are reals. */
module Rotation {
  import opened Arithmetic

  const PI := 3.141592654
  const TWO_PI := 6.283185307

  /** The angle in [-PI, PI] that differs from the given one by whole turns; none are taken for an angle
      already there. */
  method Normalize(angle: real) returns (a: real, ghost turns: int)
    ensures -PI <= a <= PI && a == angle - turns as real * TWO_PI
    ensures turns == 0 <==> -PI <= angle <= PI
    ensures angle > 0.0 ==> turns >= 0
    ensures angle < 0.0 ==> turns <= 0
  {
    a, turns := angle, 0;
    while a > PI
      invariant a == angle - turns as real * TWO_PI && turns >= 0
      invariant turns > 0 ==> angle > PI && a > PI - TWO_PI
      decreases a
    {
      a := a - TWO_PI;
      turns := turns + 1;
    }
    while a < -PI
      invariant a <= PI && a == angle - turns as real * TWO_PI
      invariant turns > 0 ==> angle > PI && a >= -PI
      invariant turns < 0 ==> angle < -PI && a <= TWO_PI - PI
      invariant turns == 0 ==> a == angle
      decreases -a
    {
      a := a + TWO_PI;
      turns := turns - 1;
    }
  }

  /** Cosine up to the square of an angle: four terms, or three for the reduced angle. */
  function Cosine4(s: real): real {
    1.0 - s / 2.0 + s * s / 24.0 - s * s * s / 720.0
  }

  /** The sine divided by the angle. */
  function Sine4(s: real): real {
    1.0 - s / 6.0 + s * s / 120.0 - s * s * s / 5040.0
  }

  function Cosine3(s: real): real {
    1.0 - s / 2.0 + s * s / 24.0
  }

  function Sine3(s: real): real {
    1.0 - s / 6.0 + s * s / 120.0
  }

  /** The matrix entries for a normalised angle. */
  function CosineOf(a: real): real {
    if Abs(a) <= PI / 2.0 then Cosine4(a * a) else -Cosine3((PI - Abs(a)) * (PI - Abs(a)))
  }

  function SineOf(a: real): real {
    if Abs(a) <= PI / 2.0 then DirectSine(a)
    else if a < 0.0 then -ReducedSine(PI - Abs(a)) else ReducedSine(PI - Abs(a))
  }

  function DirectSine(a: real): real {
    a * Sine4(a * a)
  }

  function ReducedSine(r: real): real {
    r * Sine3(r * r)
  }

  method SineAndCosine(a: real) returns (cosine: real, sine: real)
    ensures cosine == CosineOf(a) && sine == SineOf(a)
  {
    var magnitude := if a < 0.0 then -a else a;
    if magnitude <= PI / 2.0 {
      cosine, sine := Polynomials4(a, a * a);
    } else {
      var reduced := PI - magnitude;
      var cosineReduced, sineReduced := Polynomials3(reduced, reduced * reduced);
      cosine := -cosineReduced;
      sine := if a < 0.0 then -sineReduced else sineReduced;
    }
  }

  method Polynomials4(a: real, square: real) returns (cosine: real, sine: real)
    ensures cosine == Cosine4(square) && sine == a * Sine4(square)
  {
    var fourth := square * square;
    var sixth := fourth * square;
    cosine := 1.0 - square / 2.0 + fourth / 24.0 - sixth / 720.0;
    sine := a - (a * square) / 6.0 + (a * fourth) / 120.0 - (a * sixth) / 5040.0;
    FactorOut4(a, square, fourth, sixth);
  }

  method Polynomials3(a: real, square: real) returns (cosine: real, sine: real)
    ensures cosine == Cosine3(square) && sine == a * Sine3(square)
  {
    var fourth := square * square;
    cosine := 1.0 - square / 2.0 + fourth / 24.0;
    sine := a - (a * square) / 6.0 + (a * fourth) / 120.0;
    FactorOut3(a, square, fourth);
  }

  lemma FactorOut4(a: real, s: real, s2: real, s3: real)
    requires s2 == s * s && s3 == s2 * s
    ensures a - (a * s) / 6.0 + (a * s2) / 120.0 - (a * s3) / 5040.0 == a * Sine4(s)
  {}

  lemma FactorOut3(a: real, s: real, s2: real)
    requires s2 == s * s
    ensures a - (a * s) / 6.0 + (a * s2) / 120.0 == a * Sine3(s)
  {}

  // ---------------------------------------------------------------- how close to a rotation

  lemma SquareOfNegative(a: real)
    ensures (-a) * (-a) == a * a
  {}

  /** What the squares of the four-term polynomials miss of 1, when the angle's square is s. */
  function Error4(s: real): real {
    Cosine4(s) * Cosine4(s) + s * (Sine4(s) * Sine4(s)) - 1.0
  }

  function Error3(s: real): real {
    Cosine3(s) * Cosine3(s) + s * (Sine3(s) * Sine3(s)) - 1.0
  }

  lemma CosineSquared(s: real)
    ensures (720.0 - 360.0 * s + 30.0 * (s * s) - s * s * s) * (720.0 - 360.0 * s + 30.0 * (s * s) - s * s * s)
            == 518400.0 - 518400.0 * s + 172800.0 * (s * s) - 23040.0 * (s * s * s) + 1620.0 * (s * s * s * s)
               - 60.0 * (s * s * s * s * s) + s * s * s * s * s * s
  {}

  lemma SineSquared(s: real)
    ensures (5040.0 - 840.0 * s + 42.0 * (s * s) - s * s * s) * (5040.0 - 840.0 * s + 42.0 * (s * s) - s * s * s)
            == 25401600.0 - 8467200.0 * s + 1128960.0 * (s * s) - 80640.0 * (s * s * s) + 3444.0 * (s * s * s * s)
               - 84.0 * (s * s * s * s * s) + s * s * s * s * s * s
  {}

  lemma ScaleSquare(a: real, b: real, k: real)
    requires a == k * b
    ensures a * a == (k * k) * (b * b)
  {}

  function Power2(s: real): real {
    Times(s, s)
  }

  function Power3(s: real): real {
    Times(Power2(s), s)
  }

  function Power4(s: real): real {
    Times(Power3(s), s)
  }

  function Rest4(s: real): real {
    -1260.0 + 504.0 * s - 35.0 * Power2(s) + Power3(s)
  }

  /** All terms up to the third power of s cancel. */
  lemma Error4Expanded(s: real)
    ensures 25401600.0 * Error4(s) == Times(Power4(s), Rest4(s))
  {
    var c, d := 720.0 - 360.0 * s + 30.0 * (s * s) - s * s * s, 5040.0 - 840.0 * s + 42.0 * (s * s) - s * s * s;
    ScaleSquare(c, Cosine4(s), 720.0);
    ScaleSquare(d, Sine4(s), 5040.0);
    CosineSquared(s);
    SineSquared(s);
    TimesS(s, d * d, Sine4(s) * Sine4(s));
    Collected(s);
  }

  lemma TimesS(s: real, x: real, y: real)
    requires x == 25401600.0 * y
    ensures s * x == 25401600.0 * (s * y)
  {}

  lemma Collected(s: real)
    ensures 49.0 * (518400.0 - 518400.0 * s + 172800.0 * (s * s) - 23040.0 * (s * s * s) + 1620.0 * (s * s * s * s)
                    - 60.0 * (s * s * s * s * s) + s * s * s * s * s * s)
            + s * (25401600.0 - 8467200.0 * s + 1128960.0 * (s * s) - 80640.0 * (s * s * s) + 3444.0 * (s * s * s * s)
                   - 84.0 * (s * s * s * s * s) + s * s * s * s * s * s)
            - 25401600.0 == Power4(s) * Rest4(s)
  {}

  function Rest3(s: real): real {
    1.0 / 360.0 - s / 960.0 + Power2(s) / 14400.0
  }

  lemma Error3Expanded(s: real)
    ensures Error3(s) == Times(Power3(s), Rest3(s))
  {}

  // ---------------------------------------------------------------- bounds

  const LARGEST_SQUARE := 2.4675

  lemma PowersAscend(x: real, y: real)
    requires 0.0 <= x <= y
    ensures 0.0 <= Power2(x) <= Power2(y) && 0.0 <= Power3(x) <= Power3(y) && 0.0 <= Power4(x) <= Power4(y)
  {
    TimesLe(x, y, x, y);
    TimesLe(Power2(x), Power2(y), x, y);
    TimesLe(Power3(x), Power3(y), x, y);
  }

  lemma PowersOfTwo()
    ensures Power2(2.0) == 4.0 && Power3(2.0) == 8.0 && Power4(2.0) == 16.0
  {}

  lemma PowersOfLargest()
    ensures Power2(LARGEST_SQUARE) <= 6.1 && Power3(LARGEST_SQUARE) <= 15.1 && Power4(LARGEST_SQUARE) <= 38.0
  {}

  lemma Error4Bounded(s: real)
    requires 0.0 <= s <= LARGEST_SQUARE
    ensures -0.001 <= Error4(s) <= 0.0
  {
    Error4Expanded(s);
    PowersOfTwo();
    PowersOfLargest();
    if s <= 2.0 {
      PowersAscend(s, 2.0);
      Rest4Between(s);
      NegativeProduct(Power4(s), 16.0, -Rest4(s), 1260.0);
    } else {
      PowersAscend(s, LARGEST_SQUARE);
      PowersAscend(2.0, s);
      NegativeProduct(Power4(s), 38.0, -Rest4(s), 460.0);
    }
  }

  lemma Rest4Between(s: real)
    requires 0.0 <= s <= 2.0
    ensures -1260.0 <= Rest4(s) <= 0.0
  {
    PowersOfTwo();
    PowersAscend(s, 2.0);
    TimesLe(s, 2.0, s, s);
    assert Power2(s) <= 2.0 * s;
  }

  lemma NegativeProduct(a: real, b: real, c: real, d: real)
    requires 0.0 <= a <= b && 0.0 <= c <= d
    ensures -Times(b, d) <= Times(a, -c) <= 0.0
  {
    TimesLe(a, b, c, d);
    assert a * -c == -(a * c);
  }

  lemma Rest3Falls(lo: real, s: real)
    requires 0.0 <= lo <= s <= LARGEST_SQUARE
    ensures 0.0 <= Rest3(s) <= Rest3(lo)
  {
    PowersAscend(0.0, s);
    PowersAscend(0.0, lo);
    TimesLe(s - lo, s - lo, s + lo, 2.0 * LARGEST_SQUARE);
    DifferenceOfSquares(s, lo);
  }

  lemma DifferenceOfSquares(x: real, y: real)
    ensures Times(x - y, x + y) == Power2(x) - Power2(y)
  {}

  lemma OnInterval(lo: real, s: real, hi: real)
    requires 0.0 <= lo <= s <= hi <= LARGEST_SQUARE && Times(Power3(hi), Rest3(lo)) <= 0.01
    ensures 0.0 <= Times(Power3(s), Rest3(s)) <= 0.01
  {
    PowersAscend(s, hi);
    Rest3Falls(lo, s);
    BoundedProduct(Power3(s), Power3(hi), Rest3(s), Rest3(lo), 0.01);
  }

  lemma BoundedProduct(a: real, b: real, c: real, d: real, bound: real)
    requires 0.0 <= a <= b && 0.0 <= c <= d && Times(b, d) <= bound
    ensures 0.0 <= Times(a, c) <= bound
  {
    TimesLe(a, b, c, d);
  }

  lemma Error3Bounded(s: real)
    requires 0.0 <= s <= LARGEST_SQUARE
    ensures 0.0 <= Error3(s) <= 0.01
  {
    Error3Expanded(s);
    if s <= 1.53 { OnInterval(0.0, s, 1.53); }
    else if s <= 1.94 { OnInterval(1.53, s, 1.94); }
    else if s <= 2.13 { OnInterval(1.94, s, 2.13); }
    else if s <= 2.24 { OnInterval(2.13, s, 2.24); }
    else if s <= 2.32 { OnInterval(2.24, s, 2.32); }
    else if s <= 2.38 { OnInterval(2.32, s, 2.38); }
    else if s <= 2.43 { OnInterval(2.38, s, 2.43); }
    else { OnInterval(2.43, s, LARGEST_SQUARE); }
  }

  lemma SquareOfProduct(a: real, b: real)
    ensures (a * b) * (a * b) == (a * a) * (b * b)
  {}

  lemma SquaresAreSmall(x: real)
    requires 0.0 <= x <= PI / 2.0
    ensures 0.0 <= x * x <= LARGEST_SQUARE
  {
    TimesLe(x, PI / 2.0, x, PI / 2.0);
  }

  lemma Excess4(a: real, s: real)
    requires s == a * a && 0.0 <= s <= LARGEST_SQUARE
    ensures -0.001 <= Cosine4(s) * Cosine4(s) + (a * Sine4(s)) * (a * Sine4(s)) - 1.0 <= 0.0
  {
    Error4Bounded(s);
    SquareOfProduct(a, Sine4(s));
  }

  lemma Excess3(r: real, s: real)
    requires s == r * r && 0.0 <= s <= LARGEST_SQUARE
    ensures 0.0 <= Cosine3(s) * Cosine3(s) + (r * Sine3(s)) * (r * Sine3(s)) - 1.0 <= 0.01
  {
    Error3Bounded(s);
    SquareOfProduct(r, Sine3(s));
  }

  /** How far the squares of the two entries exceed 1. */
  function Excess(cosine: real, sine: real): real {
    cosine * cosine + sine * sine - 1.0
  }

  lemma SignsDoNotMatter(c: real, s: real)
    ensures Excess(-c, s) == Excess(c, s) && Excess(c, -s) == Excess(c, s) && Excess(-c, -s) == Excess(c, s)
  {}

  /** The matrix for a normalised angle is a rotation up to 1/1000, or 1/100 beyond a right angle: the squares
      of its entries miss 1 by no more, never exceeding it in the first case and never falling short in the second. */
  lemma NearlyUnit(a: real)
    requires -PI <= a <= PI
    ensures if Abs(a) <= PI / 2.0 then -0.001 <= Excess(CosineOf(a), SineOf(a)) <= 0.0
            else 0.0 <= Excess(CosineOf(a), SineOf(a)) <= 0.01
  {
    if Abs(a) <= PI / 2.0 {
      SquareOfNegative(a);
      SquaresAreSmall(Abs(a));
      Excess4(a, a * a);
    } else {
      var r := PI - Abs(a);
      SquaresAreSmall(r);
      Excess3(r, r * r);
      SignsDoNotMatter(Cosine3(r * r), r * Sine3(r * r));
    }
  }

  /** The sine has the sign of the angle, so the rotation turns the right way. */
  lemma SineHasSign(a: real)
    requires -PI < a < PI
    ensures a > 0.0 ==> SineOf(a) > 0.0
    ensures a < 0.0 ==> SineOf(a) < 0.0
  {
    if Abs(a) <= PI / 2.0 { DirectSign(a); } else { ReducedSign(PI - Abs(a)); }
  }

  lemma DirectSign(a: real)
    requires Abs(a) <= PI / 2.0
    ensures (a > 0.0 ==> DirectSine(a) > 0.0) && (a < 0.0 ==> DirectSine(a) < 0.0)
  {
    SquareOfNegative(a);
    SquaresAreSmall(Abs(a));
    Sine4Positive(a * a);
    SignOfProduct(a, Sine4(a * a));
  }

  lemma ReducedSign(r: real)
    requires 0.0 < r <= PI / 2.0
    ensures ReducedSine(r) > 0.0
  {
    SquaresAreSmall(r);
    Sine3Positive(r * r);
    SignOfProduct(r, Sine3(r * r));
  }

  lemma SignOfProduct(a: real, b: real)
    requires b > 0.0
    ensures (a > 0.0 ==> a * b > 0.0) && (a < 0.0 ==> a * b < 0.0)
  {}

  lemma Sine4Positive(s: real)
    requires 0.0 <= s <= LARGEST_SQUARE
    ensures Sine4(s) > 0.5
  {
    PowersAscend(s, LARGEST_SQUARE);
    PowersOfLargest();
    assert Sine4(s) == 1.0 - s / 6.0 + Power2(s) / 120.0 - Power3(s) / 5040.0;
  }

  lemma Sine3Positive(s: real)
    requires 0.0 <= s <= LARGEST_SQUARE
    ensures Sine3(s) > 0.5
  {
    PowersAscend(0.0, s);
    assert Sine3(s) == 1.0 - s / 6.0 + Power2(s) / 120.0;
  }

  const ALMOST_RIGHT := 1.5698

  /** The cosine is positive short of a right angle, negative beyond one, and next to nothing at it: the four-term
      polynomial falls through zero a little before, between 1.5698 and 1.57. */
  lemma CosineHasSign(a: real)
    requires -PI <= a <= PI
    ensures Abs(a) <= ALMOST_RIGHT ==> CosineOf(a) > 0.0
    ensures ALMOST_RIGHT <= Abs(a) <= PI / 2.0 ==> -0.001 < CosineOf(a) < 0.001
    ensures PI / 2.0 < Abs(a) ==> CosineOf(a) < 0.0
  {
    if Abs(a) <= ALMOST_RIGHT { CosineBefore(a, Abs(a)); }
    if ALMOST_RIGHT <= Abs(a) <= PI / 2.0 { CosineAround(a, Abs(a)); }
    if PI / 2.0 < Abs(a) { CosineBeyond(a, PI - Abs(a)); }
    hide CosineOf;
  }

  lemma CosineBefore(a: real, r: real)
    requires r == Abs(a) <= ALMOST_RIGHT
    ensures CosineOf(a) > 0.0
  {
    SquareByName(a, r);
    TimesLe(r, ALMOST_RIGHT, r, ALMOST_RIGHT);
    Cosine4Falls(Power2(r), Power2(ALMOST_RIGHT));
    CosineNearRightAngle();
    hide Cosine4;
  }

  lemma CosineAround(a: real, r: real)
    requires ALMOST_RIGHT <= r == Abs(a) <= PI / 2.0
    ensures -0.001 < CosineOf(a) < 0.001
  {
    SquareByName(a, r);
    SquareByName(r, r);
    TimesLe(ALMOST_RIGHT, r, ALMOST_RIGHT, r);
    SquaresAreSmall(r);
    Cosine4Falls(Power2(ALMOST_RIGHT), Power2(r));
    Cosine4Falls(Power2(r), LARGEST_SQUARE);
    CosineNearRightAngle();
    hide Cosine4, Times;
  }

  lemma CosineBeyond(a: real, r: real)
    requires PI / 2.0 < Abs(a) <= PI && r == PI - Abs(a)
    ensures CosineOf(a) < 0.0
  {
    SquaresAreSmall(r);
    Cosine3Positive(r * r);
    hide Cosine3;
  }

  lemma CosineNearRightAngle()
    ensures 0.0 < Cosine4(Power2(ALMOST_RIGHT)) < 0.001 && -0.001 < Cosine4(LARGEST_SQUARE)
  {}

  lemma Cosine3Positive(s: real)
    requires 0.0 <= s <= LARGEST_SQUARE
    ensures Cosine3(s) > 0.0
  {
    assert 24.0 * Cosine3(s) == Power2(6.0 - s) - 12.0;
    PowersAscend(6.0 - LARGEST_SQUARE, 6.0 - s);
    assert Power2(6.0 - LARGEST_SQUARE) > 12.0;
  }

  /** The four-term cosine falls as the square of the angle grows. */
  lemma Cosine4Falls(s: real, u: real)
    requires 0.0 <= s <= u <= LARGEST_SQUARE
    ensures Cosine4(u) <= Cosine4(s)
  {
    FallOfCosine4(s, u);
    SlopeIsPositive(s, u);
    SignOfFall(u - s, Slope(s, u));
  }

  /** 720 times how steeply the four-term cosine falls between two squares. */
  function Slope(s: real, u: real): real {
    360.0 - 30.0 * (s + u) + (Power2(s) + Times(s, u) + Power2(u))
  }

  lemma SlopeIsPositive(s: real, u: real)
    requires 0.0 <= s <= u <= LARGEST_SQUARE
    ensures Slope(s, u) > 0.0
  {
    PowersAscend(0.0, s);
    PowersAscend(0.0, u);
    TimesLe(0.0, s, 0.0, u);
  }

  lemma SignOfFall(d: real, slope: real)
    requires d >= 0.0 && slope > 0.0
    ensures Times(d, slope) >= 0.0
  {
    TimesLe(0.0, d, 0.0, slope);
  }

  lemma FallOfCosine4(s: real, u: real)
    ensures 720.0 * (Cosine4(s) - Cosine4(u)) == Times(u - s, Slope(s, u))
  {
    assert 720.0 * Cosine4(s) == 720.0 - 360.0 * s + 30.0 * Power2(s) - Power3(s);
    assert 720.0 * Cosine4(u) == 720.0 - 360.0 * u + 30.0 * Power2(u) - Power3(u);
    DifferenceOfSquares(u, s);
    DifferenceOfCubes(u, s);
    DistributeSlope(u - s, u + s, Power2(s) + Times(s, u) + Power2(u));
    hide Cosine4, Power2, Power3, Times;
  }

  lemma DifferenceOfCubes(x: real, y: real)
    ensures Times(x - y, Power2(y) + Times(y, x) + Power2(x)) == Power3(x) - Power3(y)
  {}

  lemma DistributeSlope(d: real, sum: real, squares: real)
    ensures Times(d, 360.0 - 30.0 * sum + squares) == 360.0 * d - 30.0 * Times(d, sum) + Times(d, squares)
  {}

  // ---------------------------------------------------------------- how close to sine and cosine

  /** The bounds the sine and cosine of an angle of up to a right angle have, by the square of the angle: their series
      alternate, so each partial sum bounds them. */
  predicate CosineWithin(c: real, s: real) {
    1.0 - s / 2.0 <= c <= 1.0 - s / 2.0 + Power2(s) / 24.0
  }

  predicate SineWithin(v: real, r: real, s: real) {
    Times(r, 1.0 - s / 6.0) <= v <= Times(r, 1.0 - s / 6.0 + Power2(s) / 120.0)
  }

  /** The entries obey the bounds that the true cosine and sine obey: up to a right angle those of the angle itself,
      beyond it those of what is missing to a straight angle, with the cosine turned round. */
  lemma EntriesWithinSeries(a: real)
    requires -PI <= a <= PI
    ensures var r := if Abs(a) <= PI / 2.0 then Abs(a) else PI - Abs(a);
            && CosineWithin(if Abs(a) <= PI / 2.0 then CosineOf(a) else -CosineOf(a), Power2(r))
            && SineWithin(if a < 0.0 then -SineOf(a) else SineOf(a), r, Power2(r))
  {
    if Abs(a) <= PI / 2.0 { EntriesWithin4(a, Abs(a)); } else { EntriesWithin3(a, PI - Abs(a)); }
    hide CosineWithin, SineWithin, CosineOf, SineOf, Power2;
  }

  lemma SquareByName(a: real, r: real)
    requires r == a || r == -a
    ensures Power2(r) == a * a
  {}

  lemma EntriesWithin4(a: real, r: real)
    requires r == Abs(a) <= PI / 2.0
    ensures CosineWithin(CosineOf(a), Power2(r))
    ensures SineWithin(if a < 0.0 then -SineOf(a) else SineOf(a), r, Power2(r))
  {
    SquareByName(a, r);
    SquareByName(r, r);
    SquaresAreSmall(r);
    SeriesWithin4(Power2(r));
    DirectWithin(a, r, Power2(r));
    hide CosineWithin, SineWithin, Sine4Within, Cosine4, DirectSine, Power2;
  }

  lemma EntriesWithin3(a: real, r: real)
    requires PI / 2.0 < Abs(a) <= PI && r == PI - Abs(a)
    ensures CosineWithin(-CosineOf(a), Power2(r))
    ensures SineWithin(if a < 0.0 then -SineOf(a) else SineOf(a), r, Power2(r))
  {
    SquareByName(r, r);
    SquaresAreSmall(r);
    SeriesWithin3(Power2(r));
    ReducedWithin(r, Power2(r));
    hide CosineWithin, SineWithin, Sine3Within, Cosine3, ReducedSine, Power2;
  }

  predicate Sine4Within(s: real) {
    1.0 - s / 6.0 <= Sine4(s) <= 1.0 - s / 6.0 + Power2(s) / 120.0
  }

  lemma SeriesWithin4(s: real)
    requires 0.0 <= s <= LARGEST_SQUARE
    ensures CosineWithin(Cosine4(s), s) && Sine4Within(s)
  {
    PowersAscend(0.0, s);
    TimesLe(Power2(s), Power2(s), s, LARGEST_SQUARE);
    assert Power3(s) <= LARGEST_SQUARE * Power2(s);
    assert Cosine4(s) == 1.0 - s / 2.0 + Power2(s) / 24.0 - Power3(s) / 720.0;
    assert Sine4(s) == 1.0 - s / 6.0 + Power2(s) / 120.0 - Power3(s) / 5040.0;
  }

  predicate Sine3Within(s: real) {
    1.0 - s / 6.0 <= Sine3(s) == 1.0 - s / 6.0 + Power2(s) / 120.0
  }

  lemma SeriesWithin3(s: real)
    requires 0.0 <= s <= LARGEST_SQUARE
    ensures CosineWithin(Cosine3(s), s) && Sine3Within(s)
  {
    PowersAscend(0.0, s);
    assert Cosine3(s) == 1.0 - s / 2.0 + Power2(s) / 24.0;
  }

  lemma DirectWithin(a: real, r: real, s: real)
    requires r == Abs(a) && s == a * a && Sine4Within(s)
    ensures SineWithin(if a < 0.0 then -DirectSine(a) else DirectSine(a), r, s)
  {
    DirectByName(a, r, s);
    TimesAscends(r, 1.0 - s / 6.0, Sine4(s));
    TimesAscends(r, Sine4(s), 1.0 - s / 6.0 + Power2(s) / 120.0);
    hide Sine4, Power2, Times, DirectSine;
  }

  lemma DirectByName(a: real, r: real, s: real)
    requires r == Abs(a) && s == a * a
    ensures Times(r, Sine4(s)) == if a < 0.0 then -DirectSine(a) else DirectSine(a)
  {
    var v := Sine4(s);
    assert DirectSine(a) == a * v;
    hide Sine4;
  }

  lemma ReducedWithin(r: real, s: real)
    requires r >= 0.0 && s == r * r && Sine3Within(s)
    ensures SineWithin(ReducedSine(r), r, s)
  {
    ReducedByName(r, s);
    TimesAscends(r, 1.0 - s / 6.0, Sine3(s));
    TimesAscends(r, Sine3(s), 1.0 - s / 6.0 + Power2(s) / 120.0);
    hide Times, Sine3, Power2, ReducedSine;
  }

  lemma ReducedByName(r: real, s: real)
    requires s == r * r
    ensures ReducedSine(r) == Times(r, Sine3(s))
  {}
}
