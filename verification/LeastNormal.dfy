/** The one double whose lower half-gap `_dtoa_r` takes too narrow, 2^-1022: no 16 digits tell it apart. */
module LeastNormal {
  import opened Powers
  import opened Doubles
  import opened Scaling
  import opened Rounding

  const LEAST := Double(1, 0)

  lemma Square(b: nat, n: nat, v: nat)
    requires Pow(b, n) == v
    ensures Pow(b, 2 * n) == v * v
  {
    PowAdd(b, n, n);
  }

  lemma Successor(b: nat, n: nat, v: nat)
    requires Pow(b, n) == v
    ensures Pow(b, n + 1) == b * v
  {
  }

  /** 2^-1022 and its half-gaps at 10^-323 lie strictly between two integers. */
  lemma BetweenIntegers()
    ensures 2225073858507201 * Pow(2, 753) < (4 * TWO52 - 2) * Pow(5, 323)
    ensures (4 * TWO52 + 2) * Pow(5, 323) < 2225073858507202 * Pow(2, 753)
  {
    assert Pow(5, 5) == 3125;
    assert Pow(2, 11) == 2048;
    hide Pow;
    Square(5, 5, 3125);
    var a := 3125 * 3125;
    Square(5, 10, a);
    var b := a * a;
    Square(5, 20, b);
    var c := b * b;
    Square(5, 40, c);
    var d := c * c;
    Square(5, 80, d);
    var e := d * d;
    Square(5, 160, e);
    Successor(5, 320, e * e);
    Successor(5, 321, 5 * (e * e));
    Successor(5, 322, 5 * (5 * (e * e)));
    Square(2, 11, 2048);
    Successor(2, 22, 2048 * 2048);
    var f := 2 * (2048 * 2048);
    Square(2, 23, f);
    Successor(2, 46, f * f);
    var g := 2 * (f * f);
    Square(2, 47, g);
    var h := g * g;
    Square(2, 94, h);
    var i := h * h;
    Square(2, 188, i);
    var j := i * i;
    Square(2, 376, j);
    Successor(2, 752, j * j);
  }

  /** The factors of the numbers compared: p is common to both sides. */
  lemma Factors() returns (p: nat, f: nat, t: nat)
    ensures p > 0 && t > 0
    ensures Pow(10, 323) == p * f && Unit() == p * t && LEAST.Units() == 4 * TWO52
    ensures 2225073858507201 * t < (4 * TWO52 - 2) * f
    ensures (4 * TWO52 + 2) * f < 2225073858507202 * t
  {
    LeastUnits();
    hide Pow, Double.Units;
    p, f, t := Pow(2, 323), Pow(5, 323), Pow(2, 753);
    BetweenIntegers();
    PowAdd(2, 323, 753);
    PowBase(2, 5, 323);
    PowPositive(2, 323);
    PowPositive(2, 753);
  }

  lemma LeastUnits()
    ensures LEAST.Units() == 4 * TWO52
  {
    assert Pow(2, 2) == 4;
  }

  lemma AtPlace323(E: nat)
    ensures !InGap(LEAST, 2, 2, true, E, -323)
  {
    assert Ten(-323) == 1 && Ten(323) == Pow(10, 323);
    hide Pow, Unit, Ten, Double.Units;
    var p, f, t := Factors();
    NoInteger(E, p, f, t);
  }

  lemma NoInteger(E: nat, p: nat, f: nat, t: nat)
    requires p > 0 && t > 0
    requires 2225073858507201 * t < (4 * TWO52 - 2) * f && (4 * TWO52 + 2) * f < 2225073858507202 * t
    ensures !((4 * TWO52 - 2) * (p * f) <= E * (p * t) <= (4 * TWO52 + 2) * (p * f))
  {
    Swapped(4 * TWO52 - 2, f, p);
    Swapped(4 * TWO52 + 2, f, p);
    Swapped(E, t, p);
    if E <= 2225073858507201 {
      MulMono(t, E, 2225073858507201);
      StrictlyMore(p, E * t, (4 * TWO52 - 2) * f);
    } else {
      MulMono(t, 2225073858507202, E);
      StrictlyMore(p, (4 * TWO52 + 2) * f, E * t);
    }
  }

  lemma Swapped(a: int, b: int, p: int)
    ensures a * (p * b) == p * (a * b)
  {
  }

  lemma StrictlyMore(p: nat, x: int, y: int)
    requires p > 0 && x < y
    ensures p * x < p * y
  {
    MulMono(p, x + 1, y);
    MulAddOne(p, x);
  }

  /** Below 10^-323 sixteen digits do not reach the gap at all. */
  lemma BelowPlace323(N: nat, q: int)
    requires N < Pow(10, 16) && q < -323
    ensures !InGap(LEAST, 2, 2, true, N, q)
  {
    TenTo16();
    PowMonotone(10, 324, -q);
    assert Pow(10, 324) == 10 * Pow(10, 323);
    assert Ten(q) == 1 && Ten(-q) == Pow(10, -q);
    hide Pow, Unit, Ten, Double.Units;
    var p, f, t := Factors();
    NotReached(N, p, f, t, Ten(-q));
  }

  lemma NotReached(N: nat, p: nat, f: nat, t: nat, w: nat)
    requires p > 0 && N <= 22250738585072010 && w >= 10 * (p * f)
    requires 2225073858507201 * t < (4 * TWO52 - 2) * f
    ensures N * (p * t) < (4 * TWO52 - 2) * w
  {
    MulMono(t, N, 22250738585072010);
    StrictlyMore(p, N * t, 10 * ((4 * TWO52 - 2) * f));
    Swapped(N, t, p);
    Swapped(10 * (4 * TWO52 - 2), f, p);
  }

  lemma TenTo16()
    ensures Pow(10, 16) == 1_0000_0000_0000_0000
  {
    assert Pow(10, 4) == 10000;
    PowAdd(10, 4, 4);
    PowAdd(10, 8, 8);
  }

  lemma LeastFacts()
    ensures LEAST.HalfDown() == 2 == LEAST.HalfUp() && LEAST.Even() && LEAST.Mantissa() == TWO52 && LEAST.Valid()
  {
  }

  /** No decimal of 16 digits or fewer, at any exponent, is nearest to 2^-1022. */
  lemma TooFewDigits(N: nat, q: int)
    requires N < Pow(10, 16)
    ensures !ReadsBackAs(N, q, LEAST)
  {
    LeastFacts();
    hide Pow, InGap, ReadsBackAs, Double.HalfUp, Double.HalfDown, Double.Even, Double.Mantissa, Double.Valid;
    ReadsBackExactlyInGap(N, q, LEAST);
    if q < -323 {
      BelowPlace323(N, q);
    } else {
      InGapShiftBy(LEAST, 2, 2, true, N, -323, q + 323);
      AtPlace323(N * Pow(10, q + 323));
    }
  }
}
