/** What a decimal output means for the double it was made from. */
module Rounding {
  import opened Powers
  import opened Bigints
  import opened Doubles
  import opened Scaling
  import opened FreeFormat
  import opened FixedDigits

  // A decimal N * 10^q against a double, both in units of 1/(Unit() * Ten(-q)).

  function Decimal(N: nat, q: int): nat {
    N * (Unit() * Ten(q))
  }

  /** Distance between the decimal N * 10^q and the double d. */
  function Dist(N: nat, q: int, d: Double): nat {
    var x := Decimal(N, q) - d.Units() * Ten(-q);
    if x < 0 then -x else x
  }

  /** Read with rounding to nearest, ties to even, N * 10^q gives d. */
  ghost predicate ReadsBackAs(N: nat, q: int, d: Double) {
    forall d': Double :: d'.Candidate() && d' != d ==>
      Dist(N, q, d) < Dist(N, q, d') || (Dist(N, q, d) == Dist(N, q, d') && d.Even() && !d'.Even())
  }

  /** N * 10^q lies between v - lo and v + hi, the ends included when closed. */
  ghost predicate InGap(d: Double, lo: nat, hi: nat, closed: bool, N: nat, q: int) {
    var (x, t) := (Decimal(N, q), Ten(-q));
    if closed then (d.Units() - lo) * t <= x <= (d.Units() + hi) * t
    else (d.Units() - lo) * t < x < (d.Units() + hi) * t
  }

  lemma Difference(u: int, g: int, t: int)
    ensures (u - g) * t == u * t - g * t && (u + g) * t == u * t + g * t
  {
  }

  /** The decimals that read back as d are exactly those within half a gap of it. */
  lemma ReadsBackExactlyInGap(N: nat, q: int, d: Double)
    requires d.Valid() && d.Mantissa() > 0
    ensures ReadsBackAs(N, q, d) <==> InGap(d, d.HalfDown(), d.HalfUp(), d.Even(), N, q)
  {
    if ReadsBackAs(N, q, d) {
      ReadsBackInGap(N, q, d);
    }
    if InGap(d, d.HalfDown(), d.HalfUp(), d.Even(), N, q) {
      InGapReadsBack(N, q, d);
    }
  }

  lemma ReadsBackInGap(N: nat, q: int, d: Double)
    requires d.Valid() && d.Mantissa() > 0 && ReadsBackAs(N, q, d)
    ensures InGap(d, d.HalfDown(), d.HalfUp(), d.Even(), N, q)
  {
    hide Decimal, Double.Units, Double.HalfUp, Double.HalfDown, Double.Even;
    var t := Ten(-q);
    TenPositive(-q);
    NextUnits(d);
    PrevUnits(d);
    Difference(d.Units(), d.HalfUp(), t);
    Difference(d.Units(), d.HalfDown(), t);
    Difference(d.Units(), 2 * d.HalfUp(), t);
    Difference(d.Units(), 2 * d.HalfDown(), t);
    Twice(d.HalfUp(), t);
    Twice(d.HalfDown(), t);
    var up, down := Next(d), Prev(d);
    assert Dist(N, q, d) < Dist(N, q, up) || (Dist(N, q, d) == Dist(N, q, up) && d.Even());
    assert Dist(N, q, d) < Dist(N, q, down) || (Dist(N, q, d) == Dist(N, q, down) && d.Even());
    GapsPositive(d, t);
  }

  /** N * 10^q is closer to d than to any other double. */
  ghost predicate NearestTo(N: nat, q: int, d: Double) {
    forall d': Double :: d'.Candidate() && d' != d ==> Dist(N, q, d) < Dist(N, q, d')
  }

  /** Those decimals are the ones strictly within half a gap. */
  lemma NearestStrictlyInGap(N: nat, q: int, d: Double)
    requires d.Valid() && d.Mantissa() > 0
    ensures NearestTo(N, q, d) <==> InGap(d, d.HalfDown(), d.HalfUp(), false, N, q)
    ensures NearestTo(N, q, d) ==> ReadsBackAs(N, q, d)
  {
    if NearestTo(N, q, d) {
      NearestInGap(N, q, d);
    }
    if InGap(d, d.HalfDown(), d.HalfUp(), false, N, q) {
      hide InGap, Dist, Double.Even;
      forall d': Double | d'.Candidate() && d' != d ensures Dist(N, q, d) < Dist(N, q, d') {
        CloserThan(N, q, d, d', false);
      }
    }
  }

  lemma NearestInGap(N: nat, q: int, d: Double)
    requires d.Valid() && d.Mantissa() > 0 && NearestTo(N, q, d)
    ensures InGap(d, d.HalfDown(), d.HalfUp(), false, N, q)
  {
    hide Decimal, Double.Units, Double.HalfUp, Double.HalfDown, Double.Even;
    var t := Ten(-q);
    TenPositive(-q);
    NextUnits(d);
    PrevUnits(d);
    Difference(d.Units(), d.HalfUp(), t);
    Difference(d.Units(), d.HalfDown(), t);
    Difference(d.Units(), 2 * d.HalfUp(), t);
    Difference(d.Units(), 2 * d.HalfDown(), t);
    Twice(d.HalfUp(), t);
    Twice(d.HalfDown(), t);
    var up, down := Next(d), Prev(d);
    assert Dist(N, q, d) < Dist(N, q, up);
    assert Dist(N, q, d) < Dist(N, q, down);
    GapsPositive(d, t);
  }

  lemma Twice(g: int, t: int)
    ensures 2 * g * t == 2 * (g * t)
  {
  }

  lemma GapsPositive(d: Double, t: nat)
    requires t > 0
    ensures d.HalfUp() > 0 && d.HalfDown() > 0 && d.HalfUp() * t > 0 && d.HalfDown() * t > 0
  {
    PowPositive(2, d.Level());
    PowPositive(2, d.Level() - 1);
    MulMono(t, 1, d.HalfUp());
    MulMono(t, 1, d.HalfDown());
  }

  /** Strictly inside the gap, or on its end with an even mantissa, d is the nearest double. */
  lemma CloserThan(N: nat, q: int, d: Double, d': Double, closed: bool)
    requires d.Valid() && d'.Candidate() && d' != d && (closed ==> d.Even())
    requires InGap(d, d.HalfDown(), d.HalfUp(), closed, N, q)
    ensures Dist(N, q, d) < Dist(N, q, d') ||
            (closed && Dist(N, q, d) == Dist(N, q, d') && d.Even() && !d'.Even())
  {
    hide Decimal, Double.Units, Double.HalfUp, Double.HalfDown, Double.Even, Ten;
    TenPositive(-q);
    Difference(d.Units(), d.HalfUp(), Ten(-q));
    Difference(d.Units(), d.HalfDown(), Ten(-q));
    GapsPositive(d, Ten(-q));
    ScaledNeighbours(d, d', Ten(-q));
  }

  lemma InGapReadsBack(N: nat, q: int, d: Double)
    requires d.Valid() && InGap(d, d.HalfDown(), d.HalfUp(), d.Even(), N, q)
    ensures ReadsBackAs(N, q, d)
  {
    hide InGap, Dist, Double.Even;
    forall d': Double | d'.Candidate() && d' != d
      ensures Dist(N, q, d) < Dist(N, q, d') || (Dist(N, q, d) == Dist(N, q, d') && d.Even() && !d'.Even())
    {
      CloserThan(N, q, d, d', d.Even());
    }
  }

  /** A narrower gap lies inside a wider one. */
  lemma WiderGap(d: Double, lo: nat, lo': nat, hi: nat, closed: bool, N: nat, q: int)
    requires lo <= lo' && InGap(d, lo, hi, closed, N, q)
    ensures InGap(d, lo', hi, closed, N, q)
  {
    hide Decimal, Double.Units;
    MulMono(Ten(-q), d.Units() - lo', d.Units() - lo);
  }

  lemma ScaledNeighbours(d: Double, d': Double, t: nat)
    requires t > 0 && d.f < TWO52 && d'.f < TWO52 && d != d'
    ensures var (u, u', up, down) := (d.Units() * t, d'.Units() * t, d.HalfUp() * t, d.HalfDown() * t);
            && (u' >= u + 2 * up || u' <= u - 2 * down)
            && (d.Even() && (u' == u + 2 * up || u' == u - 2 * down) ==> !d'.Even())
  {
    hide Double.Units, Double.HalfUp, Double.HalfDown, Double.Even;
    var (u, u', up, down) := (d.Units(), d'.Units(), d.HalfUp(), d.HalfDown());
    Neighbours(d, d');
    OrderTimes(u', u + 2 * up, t);
    OrderTimes(u as int - 2 * down, u', t);
    Difference(u, 2 * up, t);
    Difference(u, 2 * down, t);
    Twice(up, t);
    Twice(down, t);
    GapsPositive(d, t);
  }

  lemma OrderTimes(x: int, y: int, t: nat)
    requires t > 0
    ensures x >= y ==> x * t >= y * t
    ensures x * t == y * t ==> x == y
  {
    Multiples(t, x, y);
  }

  // From scaled digits to decimals.

  /** n digits with one before the point are counted in units of 10^(k - n + 1). */
  lemma {:induction false} DenotesAt(x: nat, units: nat, S: nat, k: int, n: nat)
    requires n > 0 && Denotes(x, units, S, k)
    ensures Denotes(At(x, n), units, S, k - n + 1)
  {
    if n > 1 {
      DenotesAt(x, units, S, k, n - 1);
      AtNext(x, n - 1);
      DenotesTenth(At(x, n - 1), units, S, k - n + 2);
    }
  }

  /** A/S against the integer E is a * t/w against E. */
  lemma SameOrder(A: int, a: int, S: nat, E: int, w: nat, t: nat)
    requires S > 0 && w > 0 && A * w == a * (S * t)
    ensures A <= E * S <==> a * t <= E * w
    ensures A >= E * S <==> a * t >= E * w
  {
    Reorder(a, S, t);
    Assoc(E, S, w);
    Reorder(E, S, w);
    CrossOrder(w, A, E * S, S, a * t, E * w);
    CrossOrder(w, E * S, A, S, E * w, a * t);
  }

  /** Proportional pairs are ordered alike. */
  lemma CrossOrder(w: nat, x: int, y: int, s: nat, x': int, y': int)
    requires w > 0 && s > 0 && w * x == s * x' && w * y == s * y'
    ensures x <= y <==> x' <= y'
  {
    if x <= y {
      MulMono(w, x, y);
      MulCancel(s, x', y');
    } else {
      MulMono(w, y + 1, x);
      MulAddOne(w, y);
      MulCancelStrict(s, y', x');
    }
  }

  /** The scaled problem denotes v and its half-gaps. */
  ghost predicate Scales(p: Scaled, d: Double, k: int, lo: nat, hi: nat) {
    && Denotes(p.b, d.Units(), p.S, k) && Denotes(p.lo, lo, p.S, k) && Denotes(p.hi, hi, p.S, k)
    && p.S > 0
  }

  lemma InsideIsInGap(p: Scaled, d: Double, k: int, lo: nat, hi: nat, E: nat, n: nat)
    requires Scales(p, d, k, lo, hi) && n > 0
    ensures Inside(p, E, n) <==> InGap(d, lo, hi, p.closed, E, k - n + 1)
  {
    var q := k - n + 1;
    var (w, t) := (Unit() * Ten(q), Ten(-q));
    TenPositive(q);
    UnitPositive();
    MulMono(Unit(), 1, Ten(q));
    DenotesAt(p.b, d.Units(), p.S, k, n);
    DenotesAt(p.lo, lo, p.S, k, n);
    DenotesAt(p.hi, hi, p.S, k, n);
    Difference(At(p.b, n), At(p.lo, n), w);
    Difference(At(p.b, n), At(p.hi, n), w);
    Difference(d.Units(), lo, p.S * t);
    Difference(d.Units(), hi, p.S * t);
    SameOrder(At(p.b, n) - At(p.lo, n), d.Units() - lo, p.S, E, w, t);
    SameOrder(At(p.b, n) + At(p.hi, n), d.Units() + hi, p.S, E, w, t);
  }

  /** One power of ten may move between the digits and the exponent. */
  lemma InGapShift(d: Double, lo: nat, hi: nat, closed: bool, N: nat, q: int)
    ensures InGap(d, lo, hi, closed, 10 * N, q) <==> InGap(d, lo, hi, closed, N, q + 1)
  {
    if q >= 0 {
      TenStep(q + 1);
      assert Ten(-q) == 1 && Ten(-q - 1) == 1;
      ShiftTen(N, Unit(), Ten(q));
    } else {
      TenStep(-q);
      assert Ten(q) == 1 && Ten(q + 1) == 1;
      Regroup(d.Units() - lo, Ten(-q - 1));
      Regroup(d.Units() + hi, Ten(-q - 1));
      ShiftTen(N, Unit(), 1);
      Assoc(10, N, Unit());
    }
  }

  lemma {:induction false} InGapShiftBy(d: Double, lo: nat, hi: nat, closed: bool, N: nat, q: int, i: nat)
    ensures InGap(d, lo, hi, closed, N * Pow(10, i), q) <==> InGap(d, lo, hi, closed, N, q + i)
    decreases i
  {
    hide InGap;
    if i > 0 {
      Regroup(N, Pow(10, i - 1));
      InGapShift(d, lo, hi, closed, N * Pow(10, i - 1), q);
      InGapShiftBy(d, lo, hi, closed, N, q + 1, i - 1);
    }
  }

  /** No decimal of fewer than n significant digits, at any exponent, lies in the gap. */
  ghost predicate NoShorter(d: Double, lo: nat, hi: nat, closed: bool, n: nat) {
    forall N: nat, q: int, m: nat :: 0 < m < n && N < Pow(10, m) ==> !InGap(d, lo, hi, closed, N, q)
  }

  lemma ShortestHasNoShorter(p: Scaled, d: Double, k: int, lo: nat, hi: nat, D: nat, n: nat)
    requires Scales(p, d, k, lo, hi) && p.Ready() && n > 0 && Shortest(p, D, n)
    ensures NoShorter(d, lo, hi, p.closed, n)
  {
    forall N: nat, q: int, m: nat | 0 < m < n && N < Pow(10, m)
      ensures !InGap(d, lo, hi, p.closed, N, q)
    {
      ShorterIsOutside(p, d, k, lo, hi, n, N, q, m);
    }
  }

  lemma ShorterIsOutside(p: Scaled, d: Double, k: int, lo: nat, hi: nat, n: nat, N: nat, q: int, m: nat)
    requires Scales(p, d, k, lo, hi) && p.Ready() && 0 < m < n && N < Pow(10, m)
    requires forall i :: 0 < i < n ==> NoneInside(p, i)
    ensures !InGap(d, lo, hi, p.closed, N, q)
  {
    hide InGap, Inside, Scales;
    assert NoneInside(p, 1);
    if q > k {
      InGapShiftBy(d, lo, hi, p.closed, N, k, q - k);
      InsideIsInGap(p, d, k, lo, hi, N * Pow(10, q - k), 1);
    } else {
      var i := k - q + 1;
      InsideIsInGap(p, d, k, lo, hi, N, i);
      if i < n {
        assert NoneInside(p, i);
      } else if Inside(p, N, i) {
        BelowOneDigit(p, N, i, m);
      }
    }
  }

  /** A decimal in the interval but below 10^k drags the single digit 1 into the interval with it. */
  lemma BelowOneDigit(p: Scaled, N: nat, i: nat, m: nat)
    requires p.Ready() && 0 < m < i && N < Pow(10, m) && Inside(p, N, i)
    ensures Inside(p, 1, 1)
  {
    PowMonotone(10, m, i - 1);
    PowPositive(10, i - 1);
    BelowLeading(p.b, p.lo, p.S, N, Pow(10, i - 1));
    assert Pow(10, 0) == 1;
  }

  lemma BelowLeading(b: nat, lo: nat, s: nat, N: nat, t: nat)
    requires t > 0 && s > 0 && N < t && b * t - lo * t <= N * s
    ensures b - lo < s
  {
    Difference(b, lo, t);
    MulMono(s, N + 1, t);
    MulAddOne(s, N);
    MulCancelStrict(t, b - lo, s);
  }

  // Closeness.

  /** No other decimal in the gap with the same last place is closer to d; as close is only a neighbour of an even N. */
  ghost predicate Closest(d: Double, lo: nat, hi: nat, closed: bool, N: nat, q: int) {
    forall E: nat :: InGap(d, lo, hi, closed, E, q) ==>
      && Dist(N, q, d) <= Dist(E, q, d)
      && (E != N && Dist(N, q, d) == Dist(E, q, d) ==> N % 2 == 0 && N - 1 <= E <= N + 1)
  }

  /** Distances of the scaled problem are distances from d, over the same unit for all E. */
  lemma GapIsDist(p: Scaled, d: Double, k: int, lo: nat, hi: nat, E: nat, n: nat)
    requires Scales(p, d, k, lo, hi) && n > 0
    ensures var q := k - n + 1; (Unit() * Ten(q)) * Gap(p, E, n) == p.S * Dist(E, q, d)
  {
    var q := k - n + 1;
    DenotesAt(p.b, d.Units(), p.S, k, n);
    assert At(p.b, n) * (Unit() * Ten(q)) == d.Units() * (p.S * Ten(-q));
    TenPositive(q);
    UnitPositive();
    MulMono(Unit(), 1, Ten(q));
    hide Denotes, Double.Units, Ten, Unit, At;
    Proportional(E, p.S, At(p.b, n), Unit() * Ten(q), d.Units(), Ten(-q));
    SameSign(Unit() * Ten(q), E * p.S - At(p.b, n), p.S, Decimal(E, q) - d.Units() * Ten(-q));
  }

  lemma SameSign(w: nat, x: int, s: nat, y: int)
    requires w > 0 && s > 0 && w * x == s * y
    ensures x < 0 <==> y < 0
  {
    CrossOrder(w, 0, x, s, 0, y);
  }

  lemma Proportional(E: int, s: int, b: int, w: int, u: int, t: int)
    requires b * w == u * (s * t)
    ensures w * (E * s - b) == s * (E * w - u * t)
    ensures w * (b - E * s) == s * (u * t - E * w)
  {
  }

  lemma NearestIsClosest(p: Scaled, d: Double, k: int, lo: nat, hi: nat, D: nat, n: nat)
    requires Scales(p, d, k, lo, hi) && n > 0 && Nearest(p, D, n)
    ensures Closest(d, lo, hi, p.closed, D, k - n + 1)
  {
    assert p.S > 0;
    hide InGap, Inside, Gap, Dist, Scales;
    var q := k - n + 1;
    var w := Unit() * Ten(q);
    TenPositive(q);
    UnitPositive();
    MulMono(Unit(), 1, Ten(q));
    forall E: nat | InGap(d, lo, hi, p.closed, E, q)
      ensures Dist(D, q, d) <= Dist(E, q, d)
      ensures E != D && Dist(D, q, d) == Dist(E, q, d) ==> D % 2 == 0 && D - 1 <= E <= D + 1
    {
      InsideIsInGap(p, d, k, lo, hi, E, n);
      GapIsDist(p, d, k, lo, hi, D, n);
      GapIsDist(p, d, k, lo, hi, E, n);
      CrossOrder(w, Gap(p, D, n), Gap(p, E, n), p.S, Dist(D, q, d), Dist(E, q, d));
      CrossOrder(w, Gap(p, E, n), Gap(p, D, n), p.S, Dist(E, q, d), Dist(D, q, d));
    }
  }

  /** Moving a power of ten into the exponent scales all distances alike. */
  lemma DistShift(N: nat, q: int, d: Double)
    ensures Dist(10 * N, q, d) == (if q >= 0 then 1 else 10) * Dist(N, q + 1, d)
  {
    if q >= 0 {
      TenStep(q + 1);
      assert Ten(-q) == 1 && Ten(-q - 1) == 1;
      ShiftTen(N, Unit(), Ten(q));
    } else {
      TenStep(-q);
      assert Ten(q) == 1 && Ten(q + 1) == 1;
      Regroup(d.Units(), Ten(-q - 1));
      ShiftTen(N, Unit(), 1);
      Assoc(10, N, Unit());
    }
  }

  lemma ClosestShift(d: Double, lo: nat, hi: nat, closed: bool, N: nat, q: int)
    requires Closest(d, lo, hi, closed, 10 * N, q)
    ensures Closest(d, lo, hi, closed, N, q + 1)
  {
    hide InGap, Dist;
    var up := q + 1;
    forall E: nat | InGap(d, lo, hi, closed, E, up)
      ensures Dist(N, up, d) <= Dist(E, up, d)
      ensures E != N ==> Dist(N, up, d) != Dist(E, up, d)
    {
      InGapShift(d, lo, hi, closed, E, q);
      DistShift(N, q, d);
      DistShift(E, q, d);
      assert Dist(10 * N, q, d) <= Dist(10 * E, q, d);
    }
  }

  // Fixed-format output.

  /** N * 10^q is v rounded half-even to a multiple of 10^p. */
  ghost predicate RoundedAt(d: Double, p: int, N: nat, q: int) {
    q >= p && IsHalfEven(d.Units() * Ten(-p), Unit() * Ten(p), N * Pow(10, q - p))
  }

  /** Equal fractions round alike. */
  lemma SameRounding(num: nat, den: nat, num': nat, den': nat, D: nat)
    requires den > 0 && den' > 0 && num * den' == num' * den && IsHalfEven(num, den, D)
    ensures IsHalfEven(num', den', D)
  {
    var a, a' := 2 * (D * den - num), 2 * (D * den' - num');
    Crossed(D, den, den', num, num');
    // a * den' == a' * den, so both compare alike with their denominators
    CrossOrder(den', a, den, den, a', den');
    CrossOrder(den', den, a, den, den', a');
    Negated(den, den');
    CrossOrder(den', a, -1 * den, den, a', -1 * den');
    CrossOrder(den', -1 * den, a, den, -1 * den', a');
  }

  lemma Negated(x: int, y: int)
    ensures x * (-1 * y) == y * (-1 * x)
  {
  }

  lemma Crossed(D: int, den: int, den': int, num: int, num': int)
    requires num * den' == num' * den
    ensures den' * (2 * (D * den - num)) == den * (2 * (D * den' - num'))
  {
  }

  /** Rounding b/S at the n-th digit is rounding v at 10^(k - n + 1). */
  lemma ScaledRounding(b: nat, S: nat, d: Double, k: int, n: nat, D: nat)
    requires S > 0 && n > 0 && Denotes(b, d.Units(), S, k) && IsHalfEven(At(b, n), S, D)
    ensures IsHalfEven(d.Units() * Ten(-(k - n + 1)), Unit() * Ten(k - n + 1), D)
  {
    var p := k - n + 1;
    DenotesAt(b, d.Units(), S, k, n);
    TenPositive(p);
    UnitPositive();
    MulMono(Unit(), 1, Ten(p));
    Reorder(d.Units(), S, Ten(-p));
    SameRounding(At(b, n), S, d.Units() * Ten(-p), Unit() * Ten(p), D);
  }

  lemma {:induction false} DenotesWiderBy(x: nat, units: nat, S: nat, k: int, i: nat)
    requires Denotes(x, units, S, k)
    ensures Denotes(x, units, S * Pow(10, i), k + i)
    decreases i
  {
    if i > 0 {
      DenotesWiderBy(x, units, S, k, i - 1);
      DenotesWider(x, units, S * Pow(10, i - 1), k + i - 1);
      Regroup(S, Pow(10, i - 1));
    } else {
      assert S * Pow(10, 0) == S;
    }
  }

  /** Rounding where no digit is left: the result is 0, or one unit when b/S exceeds half of it. */
  lemma RoundedAway(b: nat, S: nat, d: Double, k: int, i: nat, D: nat)
    requires S > 0 && i > 0 && Denotes(b, d.Units(), S, k) && b < 10 * S
    requires D == if i == 1 && b > 5 * S then 1 else 0
    ensures IsHalfEven(d.Units() * Ten(-(k + i)), Unit() * Ten(k + i), D)
  {
    var p := k + i;
    DenotesWiderBy(b, d.Units(), S, k, i);
    var W := S * Pow(10, i);
    if i == 1 {
      assert W == 10 * S by {
        assert Pow(10, 1) == 10;
      }
    } else {
      PowMonotone(10, 2, i);
      assert Pow(10, 2) == 100;
      MulMono(S, 100, Pow(10, i));
    }
    TenPositive(p);
    UnitPositive();
    MulMono(Unit(), 1, Ten(p));
    Reorder(d.Units(), W, Ten(-p));
    SameRounding(b, W, d.Units() * Ten(-p), Unit() * Ten(p), D);
  }
}
