/** The short cut of `_dtoa_r` for integers below 10^15, in doubles that never round. */
module SmallIntegers {
  import opened Powers
  import opened Bigints
  import opened Decimal
  import opened Doubles
  import opened FreeFormat
  import opened FreeDigits
  import opened FixedDigits
  import opened Scaling
  import opened Unpacking

  const INT_MAX := 14

  /** Integers that a double holds exactly; a sum, difference or product that is one of them is not rounded. */
  type Held = x: nat | x < 2 * TWO52

  /** Every one of them is the value of a double. */
  lemma IsHeld(x: Held) returns (d: Double)
    ensures d.Valid() && d.Units() == x * Unit()
  {
    if x == 0 {
      d := Double(0, 0);
    } else {
      var m, s := Normalised(x);
      d := Double(1075 - s, m - TWO52);
      PowAdd(2, s, 1076 - s);
      MulAssoc(x, Pow(2, s), Pow(2, 1076 - s));
    }
  }

  lemma {:induction false} Normalised(x: nat) returns (m: nat, s: nat)
    requires 0 < x < 2 * TWO52
    ensures m == x * Pow(2, s) && TWO52 <= m < 2 * TWO52 && s <= 52
    decreases 2 * TWO52 - x
  {
    if x >= TWO52 {
      m, s := x, 0;
      assert Pow(2, 0) == 1;
    } else {
      m, s := Normalised(2 * x);
      s := s + 1;
      assert x * Pow(2, s) == 2 * x * Pow(2, s - 1);
      if s > 52 {
        PowMonotone(2, 53, s);
        Pow53();
        MulMono(Pow(2, s), 1, x);
        assert false;
      }
    }
  }

  /** r is x/y as a double division gives it: exact if it can be, else within half a unit of the 53rd bit. */
  predicate DividedTo(x: nat, y: nat, r: real)
    requires y > 0
  {
    && (x % y == 0 ==> r * y as real == x as real)
    && x as real - x as real / 9007199254740992.0 <= r * y as real <= x as real + x as real / 9007199254740992.0
  }

  /** Truncating that double is integer division, for quotients below 10 of numbers this small. */
  lemma TruncatesTo(x: nat, y: nat, r: real)
    requires 0 < y <= 100_000_000_000_000 && x < 10 * y && DividedTo(x, y, r)
    ensures r.Floor == x / y
  {
    var q, t := x / y, x % y;
    assert x == q * y + t;
    assert x as real / 9007199254740992.0 < 1.0;
    if t == 0 {
      RealCancel(r, q as real, y as real);
    } else {
      assert r * y as real > x as real - 1.0 >= q as real * y as real;
      assert r * y as real < x as real + 1.0 <= (q + 1) as real * y as real;
      RealOrder(q as real, r, y as real);
      RealOrder(r, (q + 1) as real, y as real);
    }
  }

  lemma RealOrder(a: real, b: real, y: real)
    requires y > 0.0 && a * y < b * y
    ensures a < b
  {
  }

  lemma RealCancel(a: real, b: real, y: real)
    requires y > 0.0 && a * y == b * y
    ensures a == b
  {
  }

  /** `L = d.d / ds`. */
  method Divide(x: nat, y: nat) returns (q: nat)
    requires 0 < y <= 100_000_000_000_000 && x < 10 * y
    ensures q == x / y
  {
    Exact(x, y);
    var r: real := *;
    if !DividedTo(x, y, r) {
      r := x as real / y as real;
    }
    TruncatesTo(x, y, r);
    q := r.Floor;
  }

  lemma Exact(x: nat, y: nat)
    requires y > 0
    ensures x as real / y as real * y as real == x as real
  {
  }

  // What i digits of v/10^k leave.

  /** A remainder against 10^k is one against the power of ten of the last digit. */
  lemma LastPlace(v: nat, k: nat, i: nat, E: nat, r: nat) returns (w: nat, t: nat)
    requires 0 < i <= k + 1 && At(v, i) == E * Pow(10, k) + r && r < Pow(10, k)
    ensures w == Pow(10, k + 1 - i) > 0 && v == E * w + t && t < w
    ensures r == t * Pow(10, i - 1) && Pow(10, k) == w * Pow(10, i - 1)
  {
    var T := Pow(10, i - 1);
    w := Pow(10, k + 1 - i);
    PowAdd(10, k + 1 - i, i - 1);
    PowPositive(10, k + 1 - i);
    PowPositive(10, i - 1);
    t := CommonFactor(v, E, w, T, r);
  }

  lemma CommonFactor(v: nat, E: nat, w: nat, T: nat, r: nat) returns (t: nat)
    requires v * T == E * (w * T) + r && r < w * T && T > 0
    ensures v == E * w + t && t < w && r == t * T
  {
    assert E * (w * T) == E * w * T;
    MulCancel(T, E * w, v);
    t := v - E * w;
    assert t * T == v * T - E * w * T;
    MulCancelStrict(T, t, w);
  }

  /** The unrounded last of ilim digits is a 0, something remains after it, and that does not round up. */
  predicate KeepsZero(v: nat, k: nat, ilim: int) {
    && 0 < ilim <= k + 1
    && var w := Pow(10, k + 1 - ilim);
       PowPositive(10, k + 1 - ilim);
       0 < v % (10 * w) && 2 * (v % (10 * w)) <= w
  }

  lemma KeepsZeroWhen(v: nat, k: nat, ilim: nat, w: nat, D: nat, q: nat, t: nat)
    requires 0 < ilim <= k + 1 && w == Pow(10, k + 1 - ilim) > 0
    requires v == (10 * D + q) * w + t && t < w && q <= 9
    ensures KeepsZero(v, k, ilim) <==> q == 0 && 0 < t && 2 * t <= w
  {
    MulMono(w, q + 1, 10);
    MulAddOne(w, q);
    assert (10 * D + q) * w == D * (10 * w) + q * w;
    DivisionUnique(v, 10 * w, D, q * w + t);
    if q > 0 {
      MulMono(w, 1, q);
    }
  }

  /** A number with fewer digits keeps none. */
  lemma NoneKept(v: nat, k: nat, ilim: int, n: nat, E: nat)
    requires 0 < n && n < ilim && At(v, n) == E * Pow(10, k) && n <= k + 1
    ensures !KeepsZero(v, k, ilim)
  {
    if ilim <= k + 1 {
      PowPositive(10, k);
      assert E * Pow(10, k) + 0 == E * Pow(10, k);
      var w, t := LastPlace(v, k, n, E, 0);
      PowPositive(10, n - 1);
      ZeroFactor(t, Pow(10, n - 1));
      var u := Pow(10, k + 1 - ilim);
      PowPositive(10, k + 1 - ilim);
      PowAdd(10, ilim - n - 1, k + 2 - ilim);
      assert Pow(10, k + 2 - ilim) == 10 * u;
      assert w == Pow(10, ilim - n - 1) * (10 * u);
      MulAssoc(E, Pow(10, ilim - n - 1), 10 * u);
      DivisionUnique(v, 10 * u, E * Pow(10, ilim - n - 1), 0);
    }
  }

  lemma ZeroFactor(t: nat, p: nat)
    requires t * p == 0 && p > 0
    ensures t == 0
  {
  }

  /** The remainder is gone after as many digits as the number has. */
  lemma GoneBy(v: nat, k: nat, E: nat, r: nat)
    requires At(v, k + 1) == E * Pow(10, k) + r && r < Pow(10, k)
    ensures r == 0
  {
    var w, t := LastPlace(v, k, k + 1, E, r);
    assert Pow(10, 0) == 1;
  }

  // Digit generation.

  /** Rounding up in place; a run of nines becomes a 0 that is counted up to 1. */
  method BumpUp(s: array<char>, n: nat) returns (m: nat, up: nat)
    requires 0 < n <= s.Length && AllDigits(s[..n])
    modifies s
    ensures 0 < m <= n && up <= 1 && AllDigits(s[..m]) && s[m - 1] != '0'
    ensures Num(s[..m]) * Pow(10, n + up - m) == old(Num(s[..n])) + 1
    ensures old(s[0]) != '0' ==> s[0] != '0'
    ensures up == 1 ==> m == 1
  {
    hide Num, Pow;
    ghost var was := s[..n];
    m := n - 1;
    while s[m] == '9'
      invariant 0 <= m < n && s[..n] == was
      invariant EndsWith(was, m + 1, '9')
      decreases m
    {
      if m == 0 {
        s[0] := '0';
        s[0] := CharOf(DigitOf(s[0]) + 1);
        UpFromNines(was);
        assert s[..1] == "1";
        return 1, 1;
      }
      m := m - 1;
    }
    UpBeforeNines(was, m);
    s[m] := CharOf(DigitOf(s[m]) + 1);
    assert s[..m + 1] == was[..m] + [s[m]];
    return m + 1, 0;
  }

  /** What stopping after n digits means, when ilim is the number asked for and 0 or less stands for all. */
  ghost predicate Emitted(v: nat, k: nat, ilim: int, ds: seq<char>, up: nat) {
    && AllDigits(ds) && 0 < |ds| <= k + 1 && ds[0] != '0' && up <= 1 && (up == 1 ==> |ds| == 1)
    && (ilim <= 0 ==> up == 0 && ds[|ds| - 1] != '0' && At(v, |ds|) == Num(ds) * Pow(10, k))
    && (ilim > 0 ==>
          && |ds| <= ilim && IsHalfEven(At(v, ilim), Pow(10, k), Num(ds) * Pow(10, ilim + up - |ds|))
          && (ds[|ds| - 1] == '0' <==> KeepsZero(v, k, ilim)))
  }

  /** Nothing remains. */
  lemma StopExact(v: nat, k: nat, ilim: int, ds: seq<char>)
    requires AllDigits(ds) && 0 < |ds| <= k + 1 && ds[0] != '0' && ds[|ds| - 1] != '0' && Pow(10, k) > 0
    requires At(v, |ds|) == Num(ds) * Pow(10, k) && (ilim > 0 ==> |ds| < ilim)
    ensures Emitted(v, k, ilim, ds, 0)
  {
    hide At, Pow, IsHalfEven, KeepsZero, Num;
    if ilim > 0 {
      var n := |ds|;
      NoneKept(v, k, ilim, n, Num(ds));
      AtFurther(v, n, ilim);
      Shuffled(Num(ds), Pow(10, k), Pow(10, ilim - n));
      ExactIsHalfEven(Num(ds) * Pow(10, ilim - n), Pow(10, k));
    }
  }

  lemma ExactIsHalfEven(D: nat, den: nat)
    requires den > 0
    ensures IsHalfEven(D * den, den, D)
  {
  }

  lemma {:induction false} AtFurther(v: nat, m: nat, n: nat)
    requires 0 < m <= n
    ensures At(v, n) == At(v, m) * Pow(10, n - m)
    decreases n
  {
    PowAdd(10, m - 1, n - m);
    MulAssoc(v, Pow(10, m - 1), Pow(10, n - m));
  }

  lemma Shuffled(a: nat, b: nat, c: nat)
    ensures a * b * c == (a * c) * b
  {
  }

  /** The state before digit n: D are out, x is due. */
  ghost predicate Due(v: nat, k: nat, ilim: int, ds: seq<char>, x: nat) {
    && AllDigits(ds) && |ds| <= k && (|ds| > 0 ==> ds[0] != '0' && x > 0) && (ilim > 0 ==> |ds| < ilim)
    && Partial(v, Pow(10, k), |ds|, Num(ds), x)
  }

  /** One digit L, leaving r, ten times which is due next. */
  lemma DueStep(v: nat, k: nat, ilim: int, ds: seq<char>, x: nat, L: nat, r: nat)
    requires Due(v, k, ilim, ds, x) && Divides(x, Pow(10, k), L, r) && L <= 9
    ensures var ds' := ds + [CharOf(L)];
            && AllDigits(ds') && ds'[0] != '0' && Num(ds') == 10 * Num(ds) + L
            && At(v, |ds'|) == Num(ds') * Pow(10, k) + r
            && (r == 0 ==> L > 0)
            && (r > 0 ==> |ds'| <= k)
            && (r > 0 && |ds'| != ilim ==> Due(v, k, ilim, ds', 10 * r))
  {
    NumAppend(ds, CharOf(L));
    PartialNext(v, Pow(10, k), |ds|, Num(ds), x, L, r);
    if |ds| == k {
      GoneBy(v, k, 10 * Num(ds) + L, r);
    }
  }

  /** Stopping at the digit limit, rounded up or not. */
  lemma StopRounded(v: nat, k: nat, ds: seq<char>, x: nat, L: nat, r: nat, out: seq<char>, up: nat)
    requires Due(v, k, |ds| + 1, ds, x) && Divides(x, Pow(10, k), L, r) && L <= 9
    requires AllDigits(out) && 0 < |out| <= |ds| + 1 && out[0] != '0' && up <= 1 && (up == 1 ==> |out| == 1)
    requires var more := 2 * r > Pow(10, k) || (2 * r == Pow(10, k) && L % 2 == 1);
             && Num(out) * Pow(10, |ds| + 1 + up - |out|) == 10 * Num(ds) + L + (if more then 1 else 0)
             && (more ==> out[|out| - 1] != '0') && (!more ==> out == ds + [CharOf(L)] && up == 0)
    ensures Emitted(v, k, |ds| + 1, out, up)
  {
    var i := |ds| + 1;
    DueStep(v, k, i, ds, x, L, r);
    RoundByRemainder(At(v, i), Pow(10, k), Num(ds), L, r, 2 * r > Pow(10, k) || (2 * r == Pow(10, k) && L % 2 == 1));
    var w, t := LastPlace(v, k, i, 10 * Num(ds) + L, r);
    KeepsZeroWhen(v, k, i, w, Num(ds), L, t);
    PowPositive(10, i - 1);
    HalfWord(t, w, Pow(10, i - 1));
  }

  lemma HalfWord(t: nat, w: nat, T: nat)
    requires T > 0
    ensures 2 * (t * T) <= w * T <==> 2 * t <= w
    ensures t * T > 0 <==> t > 0
    ensures 2 * (t * T) == w * T <==> 2 * t == w
  {
    Multiples(T, 2 * t, w);
    Multiples(T, w, 2 * t);
    Multiples(T, 0, t);
    assert 2 * t * T == 2 * (t * T);
  }

  lemma TenToSmall(k: nat)
    requires k <= INT_MAX
    ensures 0 < Pow(10, k) <= 100_000_000_000_000
  {
    PowPositive(10, k);
    PowMonotone(10, k, 14);
    assert Pow(10, 7) == 10_000_000;
    PowAdd(10, 7, 7);
  }

  /** The digits of v, all of them or ilim of them. */
  method EmitInteger(v: nat, k: nat, ilim: int, s: array<char>) returns (n: nat, up: nat)
    requires k <= INT_MAX && Pow(10, k) <= v < 10 * Pow(10, k)
    requires if ilim > 0 then ilim <= s.Length else k < s.Length
    modifies s
    ensures n <= s.Length && Emitted(v, k, ilim, s[..n], up)
  {
    hide Due, Emitted, Num, AllDigits, Pow, CharOf;
    TenToSmall(k);
    DueStart(v, k, ilim);
    var ds: Held := Pow(10, k);
    var x: Held := v;
    n, up := 0, 0;
    ghost var out := [];
    while true
      invariant n == |out| < s.Length && s[..n] == out
      invariant Due(v, k, ilim, out, x) && x < 10 * ds
      invariant n <= k && (ilim > 0 ==> n < ilim)
      decreases k - n
    {
      ghost var due := x;
      var L := Divide(x, ds);
      DivideDigit(due, ds, L, x - L * ds);
      var product: Held := L * ds;
      x := x - product;
      DueStep(v, k, ilim, out, due, L, x);
      PutDigit(s, n, L, out);
      n := n + 1;
      if n == ilim {
        n, up := RoundLast(v, k, out, due, L, x, ds, s, n);
        return;
      }
      x := x * 10;
      if x == 0 {
        StopExact(v, k, ilim, out + [CharOf(L)]);
        return;
      }
      out := out + [CharOf(L)];
    }
  }

  /** The limit is reached: twice the remainder against the divisor. */
  method RoundLast(v: nat, k: nat, ghost out: seq<char>, ghost due: nat, L: nat, r: Held, ds: Held,
                   s: array<char>, n0: nat)
    returns (n: nat, up: nat)
    requires ds == Pow(10, k) <= 100_000_000_000_000
    requires Due(v, k, |out| + 1, out, due) && Divides(due, Pow(10, k), L, r) && L <= 9
    requires n0 == |out| + 1 <= s.Length && s[..n0] == out + [CharOf(L)]
    modifies s
    ensures n <= s.Length && Emitted(v, k, n0, s[..n], up)
  {
    DueStep(v, k, n0, out, due, L, r);
    hide Due, Emitted, Num, Divides;
    var x: Held := r + r;
    n, up := n0, 0;
    assert Pow(10, 0) == 1;
    if x > ds || (x == ds && L % 2 == 1) {
      n, up := BumpUp(s, n);
    }
    StopRounded(v, k, out, due, L, r, s[..n], up);
  }

  lemma DivideDigit(x: nat, y: nat, q: nat, r: int)
    requires 0 < y && x < 10 * y && q == x / y && r == x - q * y
    ensures q <= 9 && r >= 0 && Divides(x, y, q, r)
  {
    TooManyTens(x, y, q);
  }

  lemma DueStart(v: nat, k: nat, ilim: int)
    requires Pow(10, k) <= v < 10 * Pow(10, k)
    ensures Due(v, k, ilim, [], v)
  {
    NoDigitsYet();
    assert Pow(10, 0) == 1;
  }
}
