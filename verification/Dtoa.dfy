/** `_dtoa_r`: a double to decimal digits, by multiple-precision arithmetic. */
module Dtoa {
  import opened Powers
  import opened Bigints
  import opened Mprec
  import opened Doubles
  import opened Decimal
  import opened Scaling
  import opened FreeFormat
  import opened FreeDigits
  import opened FixedDigits
  import opened Rounding
  import opened LeastNormal
  import opened SmallIntegers
  import opened Unpacking

  /** The power-of-ten estimate is floor(log10 v), or one more when it is marked for checking; from 0 to 22 it
      has been compared with a table of powers and needs none. */
  predicate Estimated(d: Double, k: int, kCheck: bool) {
    && (kCheck ==> k < 0 || k > 22)
    && !AtLeastTen(d, k + 1)
    && (if kCheck then AtLeastTen(d, k - 1) else AtLeastTen(d, k))
  }

  /** k = floor(log10 v). */
  predicate Exponent(d: Double, k: int) {
    AtLeastTen(d, k) && !AtLeastTen(d, k + 1)
  }

  /** b/S is v/10^k, and mhi * 2^m2 / S the half-gap below when there is one. */
  ghost predicate Prepared(d: Double, k: int, b: Bigint, S: Bigint, mhi: Bigint?, m2: nat)
    reads b, b.x, S, S.x, mhi, if mhi == null then {} else {mhi.x}
  {
    && b.Valid() && b.wds > 0 && b.x.Length > 1 && Aligned(S) && b != S && b.x != S.x
    && Denotes(b.Value(), d.Units(), S.Value(), k)
    && (mhi != null ==>
          && Positive(mhi) && mhi != b && mhi.x != b.x && mhi != S && mhi.x != S.x
          && Denotes(mhi.Value() * Pow(2, m2), LowGap(d), S.Value(), k))
  }

  method Prepare(d: Double, b0: Bigint, be: int, bbits: nat, k: int, leftright: bool)
    returns (b: Bigint, S: Bigint, mhi: Bigint?, m2: nat)
    requires d.Valid() && TakenApart(d, b0, be, bbits)
    modifies b0`wds, b0.x
    ensures Prepared(d, k, b, S, mhi, m2)
    ensures (b == b0 || (fresh(b) && fresh(b.x))) && fresh(S) && fresh(S.x)
    ensures (leftright <==> mhi != null) && if mhi == null then m2 == 0 else fresh(mhi) && fresh(mhi.x)
  {
    b, S, mhi, m2 := Scale(d, b0, be, bbits, k, leftright);
    if mhi == null {
      m2 := 0;
    }
  }

  /** b < S shows that k was one too large: repair it. */
  method RepairK(d: Double, k0: int, kCheck: bool, b0: Bigint, S: Bigint, mhi0: Bigint?, m2: nat,
                 ilim0: int, ilim1: int)
    returns (k: int, b: Bigint, mhi: Bigint?, ilim: int)
    requires Estimated(d, k0, kCheck)
    requires Prepared(d, k0, b0, S, mhi0, m2)
    modifies b0`wds, b0.x, if mhi0 == null then {} else {mhi0, mhi0.x}
    ensures Exponent(d, k) && Prepared(d, k, b, S, mhi, m2)
    ensures S.Value() <= b.Value() < 10 * S.Value()
    ensures (k == k0 && ilim == ilim0) || (kCheck && k == k0 - 1 && ilim == ilim1)
    ensures (mhi == null) == (mhi0 == null)
    ensures b == b0 || (fresh(b) && fresh(b.x))
    ensures mhi != null ==> mhi == mhi0 || (fresh(mhi) && fresh(mhi.x))
  {
    hide AtLeastTen, Val, Pow, Prepared;
    k, b, mhi, ilim := k0, b0, mhi0, ilim0;
    PreparedRange(d, k, b, S, mhi, m2);
    if kCheck {
      var c := Cmp(b, S);
      if c < 0 {
        k := k - 1;
        b, mhi := TenfoldNumerators(d, k0, b, S, mhi, m2);
        ilim := ilim1;
        PreparedRange(d, k, b, S, mhi, m2);
      }
    }
  }

  lemma PreparedRange(d: Double, k: int, b: Bigint, S: Bigint, mhi: Bigint?, m2: nat)
    requires Prepared(d, k, b, S, mhi, m2)
    ensures b.Valid() && S.Valid() && b.wds > 0 && S.Value() > 0
    ensures S.Value() <= b.Value() <==> AtLeastTen(d, k)
    ensures 10 * S.Value() <= b.Value() <==> AtLeastTen(d, k + 1)
  {
    AlignedPositive(S, b);
    InRange(b.Value(), d, S.Value(), k);
  }

  /** The numerators ten times larger for one power of ten less. */
  method TenfoldNumerators(d: Double, k: int, b0: Bigint, S: Bigint, mhi0: Bigint?, m2: nat)
    returns (b: Bigint, mhi: Bigint?)
    requires Prepared(d, k, b0, S, mhi0, m2)
    modifies b0`wds, b0.x, if mhi0 == null then {} else {mhi0, mhi0.x}
    ensures Prepared(d, k - 1, b, S, mhi, m2)
    ensures (mhi == null) == (mhi0 == null)
    ensures b == b0 || (fresh(b) && fresh(b.x))
    ensures mhi != null ==> mhi == mhi0 || (fresh(mhi) && fresh(mhi.x))
  {
    hide Denotes, Val, Pow;
    ghost var bv, sv := b0.Value(), S.Value();
    DenotesTenth(bv, d.Units(), sv, k);
    mhi := mhi0;
    b := MultAdd(b0, 10, 0);
    assert Aligned(S) && S.Value() == sv && b.Value() == 10 * bv;
    if mhi != null {
      TenMhi(mhi.Value(), m2, LowGap(d), sv, k);
      mhi := MultAdd(mhi, 10, 0);
      assert Aligned(S) && S.Value() == sv && b.Valid() && b.Value() == 10 * bv;
    }
  }

  lemma TenMhi(m: nat, m2: nat, gap: nat, S: nat, k: int)
    requires Denotes(m * Pow(2, m2), gap, S, k)
    ensures Denotes((m * 10 + 0) * Pow(2, m2), gap, S, k - 1)
  {
    hide Denotes, Pow;
    DenotesTenth(m * Pow(2, m2), gap, S, k);
    Assoc(10, m, Pow(2, m2));
  }

  lemma InRange(b: nat, d: Double, S: nat, k: int)
    requires Denotes(b, d.Units(), S, k) && S > 0
    ensures S <= b <==> AtLeastTen(d, k)
    ensures 10 * S <= b <==> AtLeastTen(d, k + 1)
  {
    CompareToOne(b, d, S, k);
    DenotesWider(b, d.Units(), S, k);
    CompareToOne(b, d, 10 * S, k + 1);
  }

  // Modes 0 and 1.

  /** The digits s[..n] with the point before place decpt, as a decimal. */
  ghost predicate ShortestOutput(d: Double, closed: bool, ds: seq<char>, decpt: int) {
    && AllDigits(ds) && 0 < |ds| <= 17 && ds[0] != '0' && ds[|ds| - 1] != '0'
    && InGap(d, LowGap(d), d.HalfUp(), closed, Num(ds), decpt - |ds|)
    && NoShorter(d, LowGap(d), d.HalfUp(), closed, |ds|)
    && Closest(d, LowGap(d), d.HalfUp(), closed, Num(ds), decpt - |ds|)
  }

  lemma FreeOutput(p: Scaled, d: Double, k: int, ds: seq<char>, up: nat)
    requires Scales(p, d, k, LowGap(d), d.HalfUp()) && p.Ready()
    requires FreeResult(p, ds, up) && |ds| <= 17 && NineDecided(p) && Spaced(p)
    ensures ShortestOutput(d, p.closed, ds, k + up + 1)
  {
    hide Scales, Inside, InGap, NoneInside, Nearest, Closest, NoShorter;
    var n := |ds|;
    NearestIsClosest(p, d, k, LowGap(d), d.HalfUp(), Num(ds) * Pow(10, up), n);
    OneUp(Num(ds), up);
    if up == 1 {
      ClosestShift(d, LowGap(d), d.HalfUp(), p.closed, Num(ds), k - n + 1);
    }
    InsideIsInGap(p, d, k, LowGap(d), d.HalfUp(), Num(ds) * Pow(10, up), n);
    InGapShiftBy(d, LowGap(d), d.HalfUp(), p.closed, Num(ds), k - n + 1, up);
    ShortestHasNoShorter(p, d, k, LowGap(d), d.HalfUp(), Num(ds) * Pow(10, up), n);
  }

  lemma OneUp(N: nat, up: nat)
    ensures up == 0 ==> N * Pow(10, up) == N
    ensures up == 1 ==> N * Pow(10, up) == 10 * N
  {
  }

  /** The upper end of a double's interval is never a power of ten that matters. */
  lemma NineIsDecided(p: Scaled, d: Double, k: int)
    requires d.Valid() && AtLeastTen(d, k) && p.Ready() && Scales(p, d, k, LowGap(d), d.HalfUp())
    ensures NineDecided(p)
  {
    TenPositive(k);
    TenPositive(-k);
    UnitPositive();
    MulMono(Unit(), 1, Ten(k));
    MulMono(p.S, 1, Ten(-k));
    if d.e > 0 {
      NarrowGap(d);
      NarrowScaled(p.b, p.hi, d.Units(), d.HalfUp(), Unit() * Ten(k), p.S * Ten(-k));
    } else if p.b + p.hi == 10 * p.S {
      SmallExponent(d, k);
      EndOfInterval(p.b + p.hi, d.Units() + d.HalfUp(), p.S, Unit(), Ten(-k), p.b, p.hi, d.Units(), d.HalfUp());
      NotTenfold(d.Units() + d.HalfUp(), -k);
    }
  }

  /** A double is an even number of its half-gaps. */
  lemma GapsAreSpaced(p: Scaled, d: Double, k: int)
    requires d.Valid() && Scales(p, d, k, LowGap(d), d.HalfUp())
    ensures Spaced(p)
  {
    var w, v, m := Unit() * Ten(k), p.S * Ten(-k), d.Mantissa();
    TenPositive(k);
    TenPositive(-k);
    UnitPositive();
    MulMono(Unit(), 1, Ten(k));
    MulMono(p.S, 1, Ten(-k));
    if p.lo == p.hi > 0 {
      SameUnits(LowGap(d), d.HalfUp(), v);
      assert d.Units() == m * (2 * LowGap(d)) by {
        assert Pow(2, d.Level() + 1) == 2 * d.HalfUp();
      }
      EvenShare(p.b, p.lo, m, LowGap(d), w, v);
    }
  }

  lemma SameUnits(x: nat, y: nat, v: nat)
    requires v > 0 && x * v == y * v
    ensures x == y
  {
    MulCancel(v, x, y);
    MulCancel(v, y, x);
  }

  lemma EvenShare(b: nat, lo: nat, m: nat, g: nat, w: nat, v: nat)
    requires w > 0 && lo > 0 && b * w == m * (2 * g) * v && lo * w == g * v
    ensures b % (2 * lo) == 0
  {
    assert b * w == m * (2 * lo) * w by {
      Doubling(m, g, v);
      Doubling(m, lo, w);
    }
    SameUnits(b, m * (2 * lo), w);
    DivisionUnique(b, 2 * lo, m, 0);
  }

  lemma Doubling(m: int, g: int, v: int)
    ensures m * (2 * g) * v == 2 * m * (g * v)
  {
  }

  lemma NarrowGap(d: Double)
    requires d.Valid() && d.e > 0
    ensures d.Units() >= 20 * d.HalfUp()
  {
    var p := Pow(2, d.Level());
    PowTwo(d.Level());
    hide Pow;
    MulMono(2 * p, 10, d.Mantissa());
  }

  lemma NarrowScaled(b: nat, hi: nat, u: nat, h: nat, w: nat, v: nat)
    requires b * w == u * v && hi * w == h * v && u >= 20 * h && w > 0
    ensures b >= 20 * hi
  {
    MulMono(v, 20 * h, u);
    Assoc(20, h, v);
    Assoc(20, hi, w);
    MulCancel(w, 20 * hi, b);
  }

  lemma SmallExponent(d: Double, k: int)
    requires d.Valid() && d.e == 0 && AtLeastTen(d, k)
    ensures k < -1
  {
    if k >= -1 {
      assert Pow(10, 0) == 1;
      assert Ten(-k) <= 10;
      TenPositive(k);
      MulMono(Unit(), 1, Ten(k));
      MulMono(d.Units(), Ten(-k), 10);
      assert Pow(2, 2) == 4;
      PowMonotone(2, 58, 1076);
      Pow58();
    }
  }

  lemma Pow58()
    ensures Pow(2, 58) == 64 * TWO52
  {
    assert Pow(2, 13) == 8192 && Pow(2, 3) == 8;
    PowAdd(2, 13, 13);
    PowAdd(2, 26, 26);
    PowAdd(2, 52, 3);
    PowAdd(2, 55, 3);
  }

  /** b + hi == 10 * S, read as a statement about the double: u + h is ten times 2^1076 over a power of ten. */
  lemma EndOfInterval(e: nat, uh: nat, s: nat, unit: nat, t: nat, b: nat, hi: nat, u: nat, h: nat)
    requires e == b + hi == 10 * s && uh == u + h && s > 0
    requires b * (unit * 1) == u * (s * t) && hi * (unit * 1) == h * (s * t)
    ensures 10 * unit == uh * t
  {
    assert e * unit == uh * (s * t);
    Reorder(uh, s, t);
    Assoc(10, s, unit);
    Reorder(10, s, unit);
    MulCancel(s, 10 * unit, uh * t);
    MulCancel(s, uh * t, 10 * unit);
  }

  /** Two or more powers of ten never make ten times a power of two: there is a five left over. */
  lemma NotTenfold(x: nat, j: int)
    requires j >= 2
    ensures 10 * Unit() != x * Ten(j)
  {
    if 10 * Unit() == x * Ten(j) {
      assert Pow(10, j) == 10 * (10 * Pow(10, j - 2));
      FiveLeftOver(Unit(), x, Pow(10, j - 2));
      PowTwoModFive(1076);
    }
  }

  lemma FiveLeftOver(u: nat, x: nat, t: nat)
    requires 10 * u == x * (10 * (10 * t))
    ensures u % 5 == 0
  {
    assert x * (10 * (10 * t)) == 100 * (x * t);
    assert u == 10 * (x * t);
  }

  lemma {:induction false} PowTwoModFive(n: nat)
    ensures Pow(2, n) % 5 != 0
  {
    if n > 0 {
      PowTwoModFive(n - 1);
    }
  }

  /** Seventeen digits always suffice: the interval is wider than 10^-16 of b/S. */
  lemma SeventeenDigits(p: Scaled, d: Double, k: int)
    requires d.Valid() && AtLeastTen(d, k) && Scales(p, d, k, LowGap(d), d.HalfUp())
    ensures At(p.lo, 17) + At(p.hi, 17) > p.S
  {
    var t := Pow(10, 16);
    var (w, v) := (Unit() * Ten(k), p.S * Ten(-k));
    GapTimesTen16(d);
    TenPositive(k);
    TenPositive(-k);
    UnitPositive();
    MulMono(Unit(), 1, Ten(k));
    MulMono(p.S, 1, Ten(-k));
    WidthExceeds(p.lo, p.hi, LowGap(d), d.HalfUp(), w, v, t, p.S, d.Units(), Ten(-k));
  }

  lemma WidthExceeds(lo: nat, hi: nat, g: nat, h: nat, w: nat, v: nat, t: nat, s: nat, u: nat, tn: nat)
    requires lo * w == g * v && hi * w == h * v && v == s * tn && v > 0 && w > 0
    requires w <= u * tn && u < (g + h) * t
    ensures lo * t + hi * t > s
  {
    // (lo + hi) * t * w == (g + h) * t * v > u * v >= s * w
    MulMono(v, u + 1, (g + h) * t);
    MulAddOne(v, u);
    MulMono(s, w, u * tn);
    Chain(lo, hi, g, h, w, v, t);
    Reorder(u, s, tn);
    MulCancelStrict(w, s, lo * t + hi * t);
  }

  lemma Chain(lo: nat, hi: nat, g: nat, h: nat, w: nat, v: nat, t: nat)
    requires lo * w == g * v && hi * w == h * v
    ensures w * (lo * t + hi * t) == v * ((g + h) * t)
  {
    assert w * (lo * t) == lo * w * t && w * (hi * t) == hi * w * t;
    assert v * ((g + h) * t) == (g * v) * t + (h * v) * t;
  }

  lemma GapTimesTen16(d: Double)
    requires d.Valid()
    ensures d.Units() < (LowGap(d) + d.HalfUp()) * Pow(10, 16)
  {
    PowPositive(2, d.Level() - 1);
    PowTwo(d.Level() - 1);
    PowTwo(d.Level());
    TenTo16();
    hide Pow;
    var h := Pow(2, d.Level() - 1);
    if SpecialCase(d) {
      GapScalar(d.Mantissa(), h, 3 * h, Pow(10, 16));
    } else {
      GapScalar(d.Mantissa(), h, 4 * h, Pow(10, 16));
    }
  }

  lemma GapScalar(m: nat, h: nat, gap: nat, t: nat)
    requires h > 0 && t == 1_0000_0000_0000_0000 && m < 2 * TWO52
    requires gap == 4 * h || (gap == 3 * h && m == TWO52)
    ensures m * (4 * h) < gap * t
  {
    MulMono(4 * h, m, 2 * TWO52);
  }

  lemma GapsScaled(d: Double, b: nat, S: nat, m: nat, k: int, closed: bool)
    requires d.Valid() && S > 0 && S <= b < 10 * S
    requires Denotes(b, d.Units(), S, k) && Denotes(m, LowGap(d), S, k)
    ensures var p := Scaled(b, S, m, if SpecialCase(d) then 2 * m else m, closed);
            p.Ready() && Scales(p, d, k, LowGap(d), d.HalfUp())
  {
    PowPositive(2, d.Level() - 1);
    PowTwo(d.Level() - 1);
    TenPositive(-k);
    MulMono(S, 1, Ten(-k));
    MulMono(S * Ten(-k), 1, LowGap(d));
    Assoc(2, m, Unit() * Ten(k));
    Assoc(2, LowGap(d), S * Ten(-k));
  }

  /** mlo and mhi from the half-gap, then the digits. */
  method FreePart(d: Double, k: int, b: Bigint, S: Bigint, mhi0: Bigint, m2: nat, closed: bool, s: array<char>)
    returns (n: nat, up: nat)
    requires d.Valid() && Exponent(d, k) && Prepared(d, k, b, S, mhi0, m2)
    requires S.Value() <= b.Value() < 10 * S.Value() && s.Length >= 17
    modifies b`wds, b.x, mhi0`wds, mhi0.x, s
    ensures n <= 17 <= s.Length && ShortestOutput(d, closed, s[..n], k + up + 1)
  {
    hide Denotes, LowGap, Double.HalfUp, Val, Exponent, Scales, At, ShortestOutput, FreeResult;
    var mhi := mhi0;
    PowOfOne(mhi0.Value(), m2);
    if m2 > 0 {
      mhi := Lshift(mhi, m2);
    }
    var mlo := mhi;
    if SpecialCase(d) {
      mhi := Lshift(mhi, 1);
    }
    ghost var p := Scaled(b.Value(), S.Value(), mlo.Value(), mhi.Value(), closed);
    GapsScaled(d, p.b, p.S, p.lo, k, closed);
    SeventeenFrom(p, d, k);
    NineFrom(p, d, k);
    GapsAreSpaced(p, d, k);
    AtStart(p);
    n, up := Generate(b, S, mlo, mhi, closed, s, p, 17);
    FreeOutput(p, d, k, s[..n], up);
  }

  lemma PowOfOne(m: nat, m2: nat)
    ensures m2 == 0 ==> m * Pow(2, m2) == m
    ensures Pow(2, 1) == 2
  {
  }

  lemma SeventeenFrom(p: Scaled, d: Double, k: int)
    requires d.Valid() && Exponent(d, k) && Scales(p, d, k, LowGap(d), d.HalfUp())
    ensures At(p.lo, 17) + At(p.hi, 17) > p.S
  {
    SeventeenDigits(p, d, k);
  }

  lemma NineFrom(p: Scaled, d: Double, k: int)
    requires d.Valid() && Exponent(d, k) && p.Ready() && Scales(p, d, k, LowGap(d), d.HalfUp())
    ensures NineDecided(p)
  {
    NineIsDecided(p, d, k);
  }

  /** Before the first digit nothing has been scaled. */
  lemma AtStart(p: Scaled)
    requires p.Ready()
    ensures At(p.lo, 1) == p.lo && At(p.hi, 1) == p.hi && Generated(p, 0, 0, p.b)
  {
    assert Pow(10, 0) == 1;
  }

  // Modes 2 and 3.

  /** No leading zero, a trailing one only as told, and v rounded half-even at 10^p; without any digit the point
      stands at that place. */
  ghost predicate FixedOutput(d: Double, p: int, ds: seq<char>, decpt: int, zero: bool) {
    && AllDigits(ds) && (|ds| > 0 ==> ds[0] != '0') && (|ds| > 0 && ds[|ds| - 1] == '0' <==> zero)
    && RoundedAt(d, p, Num(ds), decpt - |ds|)
    && (|ds| == 0 ==> decpt == p)
  }

  method FixedPart(d: Double, k: int, b: Bigint, S: Bigint, ilim: nat, s: array<char>)
    returns (n: nat, up: nat)
    requires Prepared(d, k, b, S, null, 0)
    requires S.Value() <= b.Value() < 10 * S.Value() && 0 < ilim <= s.Length
    modifies b`wds, b.x, s
    ensures n <= ilim && FixedOutput(d, k + 1 - ilim, s[..n], k + up + 1, false)
  {
    ghost var b0, sv := b.Value(), S.Value();
    assert At(b0, 1) == b0 by {
      assert Pow(10, 0) == 1;
    }
    hide Denotes, At, IsHalfEven, Val;
    n, up := Fixed(b, S, ilim, s, b0);
    ScaledRounding(b0, sv, d, k, ilim, Num(s[..n]) * Pow(10, ilim + up - n));
  }

  /** Mode 3 asked for nothing at or below the leading digit: no digits, or a lone 1. */
  method NoDigits(d: Double, k: int, b: Bigint, S: Bigint, ilim: int, ndigits: int, s: array<char>)
    returns (n: nat, k': int)
    requires Prepared(d, k, b, S, null, 0)
    requires S.Value() <= b.Value() < 10 * S.Value() && ilim == ndigits + k + 1 <= 0 < s.Length
    modifies S`wds, S.x, s
    ensures n <= 1 <= s.Length && FixedOutput(d, k + 1 - ilim, s[..n], k' + 1, false)
  {
    hide Denotes, IsHalfEven, Val;
    AlignedPositive(S, b);
    ghost var bv, sv := b.Value(), S.Value();
    var none := true;
    if ilim == 0 {
      var S5 := MultAdd(S, 5, 0);
      var c := Cmp(b, S5);
      none := c <= 0;
    }
    RoundedAway(bv, sv, d, k, 1 - ilim, if none then 0 else 1);
    TrivialDigits();
    if none {
      assert s[..0] == [];
      return 0, -1 - ndigits;
    }
    s[0] := '1';
    assert s[..1] == "1";
    return 1, k + 1;
  }

  lemma TrivialDigits()
    ensures Num([]) == 0 && Num("1") == 1 && Pow(10, 0) == 1 && forall i: nat :: 0 * Pow(10, i) == 0
  {
    assert "1"[..0] == [];
  }

  // The whole conversion.

  /** Modes outside 0-9 count as 0; 6 to 9 are 2 to 5 without the floating-point shortcut. */
  function PlainMode(mode: int): int {
    if mode < 0 || mode > 9 then 0 else if mode > 5 then mode - 4 else mode
  }

  /** The digit position a fixed-format mode rounds at, k being the decimal exponent of v. */
  function RoundingPlace(mode: int, ndigits: int, k: int): int
    requires mode == 2 || mode == 3
  {
    if mode == 3 then -ndigits else if ndigits <= 0 then k else k + 1 - ndigits
  }

  /** The number of digits asked for, as the first estimate of the exponent has it; -1 for as many as it takes. */
  function FirstLimit(mode: int, ndigits: int, k: int): int {
    if mode < 2 then -1 else if mode == 3 then ndigits + k + 1 else if ndigits <= 0 then 1 else ndigits
  }

  const QUICK_MAX := 14

  /** Whether plain floating-point arithmetic is tried first. */
  predicate TriesShortcut(anyMode: int, ndigits: int, k: int) {
    (anyMode == 2 || anyMode == 3) && 0 <= FirstLimit(anyMode, ndigits, k) <= 14
  }

  /** How that ends: without a result, or with digits and an exponent of its own. */
  datatype Shortcut = GaveUp | Took(text: seq<char>, k: int)

  /** The shortcut writes no more digits than were asked for, or a lone 1. */
  predicate Fits(quick: Shortcut, limit: int) {
    quick.Took? ==> |quick.text| <= 1 || |quick.text| <= limit
  }

  /** Digit limits before and after a k repair, the result size, and the digit count used. */
  method Limits(mode: int, anyDigits: int, k: int) returns (ilim: int, ilim1: int, i: nat, ndigits: int)
    requires 0 <= mode <= 3
    ensures ilim == FirstLimit(mode, anyDigits, k) && i >= 1 && i >= ilim
    ensures mode < 2 ==> ilim == ilim1 == -1 && i == 18 && ndigits == 0
    ensures mode == 2 ==> i == ilim == ilim1 == ndigits == if anyDigits <= 0 then 1 else anyDigits
    ensures mode == 3 ==> ilim == ndigits + k + 1 && ilim1 == ilim - 1 && ndigits == anyDigits && i > 0 && i >= ilim
  {
    ndigits := anyDigits;
    if mode < 2 {
      ilim, ilim1, i, ndigits := -1, -1, 18, 0;
    } else if mode == 2 {
      if ndigits <= 0 {
        ndigits := 1;
      }
      ilim, ilim1, i := ndigits, ndigits, ndigits;
    } else {
      ilim := ndigits + k + 1;
      ilim1 := ilim - 1;
      i := if ilim <= 0 then 1 else ilim;
    }
  }

  /** The digit generator the mode calls for; k moves up when a carry runs off the front. */
  method EmitDigits(d: Double, k0: int, mode: int, ilim: int, ndigits: int,
                    b: Bigint, S: Bigint, mhi: Bigint?, m2: nat, s: array<char>)
    returns (n: nat, k: int)
    requires d.Valid() && Exponent(d, k0) && Prepared(d, k0, b, S, mhi, m2)
    requires S.Value() <= b.Value() < 10 * S.Value()
    requires 0 <= mode <= 3 && (mode < 2 <==> mhi != null) && (mhi == null ==> m2 == 0)
    requires mode < 2 ==> s.Length >= 17
    requires mode == 2 ==> ilim > 0
    requires mode == 3 ==> ilim == ndigits + k0 + 1
    requires mode >= 2 ==> 0 < s.Length && ilim <= s.Length
    modifies b`wds, b.x, S`wds, S.x, if mhi == null then {} else {mhi, mhi.x}, s
    ensures n <= s.Length
    ensures mode < 2 ==> n <= 17 && ShortestOutput(d, mode == 0 && d.Even(), s[..n], k + 1)
    ensures mode >= 2 ==> FixedOutput(d, k0 + 1 - ilim, s[..n], k + 1, false) && (n <= 1 || n <= ilim)
  {
    hide Prepared, ShortestOutput, FixedOutput, Exponent, Val;
    k := k0;
    var up;
    if ilim <= 0 && mode > 2 {
      n, k := NoDigits(d, k, b, S, ilim, ndigits, s);
    } else if mode < 2 {
      n, up := FreePart(d, k, b, S, mhi, m2, mode == 0 && d.Even(), s);
      k := k + up;
    } else {
      n, up := FixedPart(d, k, b, S, ilim, s);
      k := k + up;
    }
  }

  /** All other numbers: scaled, with the estimate repaired if need be. */
  method BigPart(d: Double, b0: Bigint, be: int, bbits: nat, k0: int, kCheck: bool,
                 mode: int, ilim0: int, ilim1: int, ndigits: int, s: array<char>)
    returns (n: nat, k: int, ghost exponent: int)
    requires d.Valid() && TakenApart(d, b0, be, bbits) && Estimated(d, k0, kCheck) && 0 <= mode <= 3
    requires mode < 2 ==> ilim0 == ilim1 == -1 && s.Length >= 17
    requires mode == 2 ==> ilim0 == ilim1 > 0
    requires mode == 3 ==> ilim0 == ndigits + k0 + 1 && ilim1 == ilim0 - 1
    requires 0 < s.Length && ilim0 <= s.Length
    modifies b0`wds, b0.x, s
    ensures n <= s.Length && Exponent(d, exponent) && (exponent == k0 || (kCheck && exponent == k0 - 1))
    ensures mode < 2 ==> n <= 17 && ShortestOutput(d, mode == 0 && d.Even(), s[..n], k + 1)
    ensures mode >= 2 ==>
              var ilim := if mode == 2 then ilim0 else ndigits + exponent + 1;
              FixedOutput(d, exponent + 1 - ilim, s[..n], k + 1, false) && (n <= 1 || n <= ilim)
  {
    hide Prepared, ShortestOutput, FixedOutput, Exponent, Estimated, TakenApart, Val;
    var ilim;
    var b, S, mhi, m2 := Prepare(d, b0, be, bbits, k0, mode < 2);
    k, b, mhi, ilim := RepairK(d, k0, kCheck, b, S, mhi, m2, ilim0, ilim1);
    exponent := k;
    n, k := EmitDigits(d, k, mode, ilim, ndigits, b, S, mhi, m2, s);
  }

  // Small integers.

  predicate Whole(d: Double) {
    UnitPositive();
    d.Units() % Unit() == 0
  }

  function WholeValue(d: Double): nat {
    UnitPositive();
    d.Units() / Unit()
  }

  /** Where a trailing zero survives, against the documentation: an integer below 10^15 whose last digit asked
      for is a 0 that nothing rounds up. */
  predicate ZeroKept(d: Double, k: int, p: int) {
    Whole(d) && 0 <= k <= 14 && KeepsZero(WholeValue(d), k, k + 1 - p)
  }

  /** `be >= 0` recognises the integers. */
  lemma WholeWhen(d: Double, b: Bigint, be: int, bits: nat)
    requires TakenApart(d, b, be, bits)
    ensures Whole(d) <==> be >= 0
    ensures be >= 0 ==> WholeValue(d) == b.Value() * Pow(2, be)
  {
    var v := b.Value();
    UnitPositive();
    if be >= 0 {
      WholeProduct(v, be, d.Units());
    } else if Whole(d) {
      PowAdd(2, -be - 1, be + 1076);
      assert Pow(2, -be) == 2 * Pow(2, -be - 1);
      PowAdd(2, -be, be + 1076);
      PowPositive(2, be + 1076);
      EvenQuotient(v, WholeValue(d), Pow(2, be + 1076), Pow(2, -be - 1), Unit());
    }
  }

  lemma WholeProduct(v: nat, be: nat, units: nat)
    requires v * Pow(2, be + 1076) == units
    ensures Unit() > 0 && units % Unit() == 0 && units / Unit() == v * Pow(2, be)
  {
    UnitPositive();
    PowAdd(2, be, 1076);
    MulMono(v, 0, Pow(2, be));
    hide Pow;
    MulAssoc(v, Pow(2, be), Pow(2, 1076));
    DivisionUnique(units, Unit(), v * Pow(2, be), 0);
  }

  lemma EvenQuotient(v: nat, c: nat, p: nat, h: nat, u: nat)
    requires p > 0 && u == (2 * h) * p && u > 0 && (v * p) % u == 0 && c == (v * p) / u
    ensures v % 2 == 0
  {
    assert v * p == c * u;
    assert c * ((2 * h) * p) == (2 * (c * h)) * p;
    MulCancel(p, v, 2 * (c * h));
    MulCancel(p, 2 * (c * h), v);
  }

  /** What an integer is in the terms of the estimate. */
  lemma WholeExponent(d: Double, k: int, kCheck: bool)
    requires d.Valid() && d.Mantissa() > 0 && Whole(d) && Estimated(d, k, kCheck) && k <= SmallIntegers.INT_MAX
    ensures k >= 0 && Exponent(d, k)
  {
    UnitPositive();
    WholeAtLeastOne(d);
    if k < 0 {
      TenPositive(-k - 1);
      MulMono(d.Units(), 1, Ten(-k - 1));
    }
  }

  lemma WholeAtLeastOne(d: Double)
    requires d.Valid() && d.Mantissa() > 0 && Whole(d)
    ensures WholeValue(d) > 0 && d.Units() == WholeValue(d) * Unit() >= Unit()
  {
    UnitPositive();
    PowPositive(2, d.Level() + 1);
    MulMono(d.Mantissa(), 1, Pow(2, d.Level() + 1));
    hide Pow, Unit, Double.Units;
    ExactQuotient(d.Units(), Unit());
  }

  lemma ExactQuotient(x: nat, u: nat)
    requires x > 0 && u > 0 && x % u == 0
    ensures x == x / u * u >= u && x / u > 0
  {
    assert x == x / u * u + x % u;
    MulMono(u, 1, x / u);
  }

  lemma TensOf(k: int)
    requires k >= 0
    ensures Ten(k) == Pow(10, k) > 0 && Ten(-k) == 1 && Ten(k + 1) == 10 * Pow(10, k) && Ten(-k - 1) == 1
  {
    assert Pow(10, 0) == 1;
    PowPositive(10, k);
  }

  lemma BetweenTens(d: Double, k: nat)
    requires Exponent(d, k)
    ensures Unit() * Pow(10, k) <= d.Units() < Unit() * (10 * Pow(10, k))
  {
    TensOf(k);
    hide Ten, Pow, Unit, Double.Units;
  }

  /** v between powers of ten, and v/10^k as the scaled number. */
  lemma WholeScale(d: Double, k: nat)
    requires d.Valid() && d.Mantissa() > 0 && Whole(d) && Exponent(d, k)
    ensures Pow(10, k) <= WholeValue(d) < 10 * Pow(10, k)
    ensures Denotes(WholeValue(d), d.Units(), Pow(10, k), k)
  {
    UnitPositive();
    WholeAtLeastOne(d);
    TensOf(k);
    BetweenTens(d, k);
    hide Pow, Unit, Ten, Double.Units, WholeValue, Exponent, Whole;
    WithoutUnit(WholeValue(d), Unit(), d.Units(), Pow(10, k));
  }

  lemma WithoutUnit(v: nat, u: nat, units: nat, p: nat)
    requires units == v * u && u > 0 && u * p <= units < u * (10 * p)
    ensures p <= v < 10 * p && v * (u * p) == units * (p * 1)
  {
    MulCancel(u, p, v);
    MulCancelStrict(u, v, 10 * p);
    MulAssoc(v, u, p);
  }

  /** The integer over 10^k as a scaled problem with the gaps of the double. */
  lemma WholeProblem(d: Double, k: nat, closed: bool)
    requires d.Valid() && d.Mantissa() > 0 && Exponent(d, k)
    ensures var p := Scaled(d.Units(), Unit() * Pow(10, k), LowGap(d), d.HalfUp(), closed);
            p.Ready() && Scales(p, d, k, LowGap(d), d.HalfUp())
  {
    UnitPositive();
    LowGapPositive(d);
    TensOf(k);
    BetweenTens(d, k);
    hide Pow, Unit, Ten, Double.Units, Double.HalfUp, LowGap, Exponent;
    MulMono(Unit(), 1, Pow(10, k));
    Regroup(Unit(), Pow(10, k));
  }

  lemma LowGapPositive(d: Double)
    requires d.Valid()
    ensures 0 < LowGap(d) <= d.HalfUp()
  {
    PowTwo(d.Level() - 1);
    PowPositive(2, d.Level() - 1);
  }

  /** Below 10^15 neighbouring doubles are less than an integer apart. */
  lemma FineGap(d: Double)
    requires d.Valid() && d.Mantissa() > 0 && Whole(d) && WholeValue(d) < 1_000_000_000_000_000
    ensures LowGap(d) <= d.HalfUp() < Unit()
  {
    LowGapPositive(d);
    WholeAtLeastOne(d);
    UnitPositive();
    var u, v, h := Unit(), WholeValue(d), d.HalfUp();
    MulMono(u, v, 999_999_999_999_999);
    if d.e == 0 {
      SubnormalBelowUnit(d);
    } else {
      PowTwo(d.Level());
      Doubled(d.Mantissa(), h);
      MulMono(h, TWO52, d.Mantissa());
    }
  }

  lemma Doubled(m: nat, h: nat)
    ensures m * (2 * h) == 2 * (h * m)
  {
  }

  lemma SubnormalBelowUnit(d: Double)
    requires d.Valid() && d.e == 0
    ensures d.Units() < Unit()
  {
    assert Pow(2, 2) == 4;
    PowMonotone(2, 58, 1076);
    Pow58();
  }

  /** The exact digits of an integer, the last of them not 0, are the shortest. */
  lemma WholeIsShortest(d: Double, k: nat, ds: seq<char>, closed: bool)
    requires d.Valid() && d.Mantissa() > 0 && Whole(d) && Exponent(d, k) && k <= SmallIntegers.INT_MAX
    requires Emitted(WholeValue(d), k, -1, ds, 0)
    ensures ShortestOutput(d, closed, ds, k + 1)
  {
    var n, D, v := |ds|, Num(ds), WholeValue(d);
    var p := Scaled(d.Units(), Unit() * Pow(10, k), LowGap(d), d.HalfUp(), closed);
    WholeScale(d, k);
    TenToSmall(k);
    WholeProblem(d, k, closed);
    WholeAtLeastOne(d);
    FineGap(d);
    NineIsDecided(p, d, k);
    GapsAreSpaced(p, d, k);
    ExactInside(p, v, Unit(), k, D, n);
    if n > 1 {
      NoneOneShorter(p, v, Unit(), k, ds);
    }
    forall m | 0 < m < n ensures NoneInside(p, m) {
      NoneAtFewer(p, m, n - 1);
    }
    assert D * Pow(10, 0) == D;
    FreeOutput(p, d, k, ds, 0);
  }

  lemma ExactInside(p: Scaled, v: nat, u: nat, k: nat, D: nat, n: nat)
    requires n > 0 && p.b == v * u && p.S == u * Pow(10, k) > 0 && p.lo > 0 && p.hi > 0
    requires At(v, n) == D * Pow(10, k)
    ensures Inside(p, D, n) && Nearest(p, D, n)
  {
    PowPositive(10, n - 1);
    MulMono(Pow(10, n - 1), 1, p.lo);
    MulMono(Pow(10, n - 1), 1, p.hi);
    ExactProduct(v, u, Pow(10, n - 1), D, Pow(10, k));
    assert At(p.b, n) == D * p.S;
    forall E: int ensures E != D ==> Gap(p, E, n) > 0 {
      Multiples(p.S, E, D);
    }
  }

  lemma ExactProduct(v: int, u: int, T: int, D: int, S: int)
    requires v * T == D * S
    ensures v * u * T == D * (u * S)
  {
    assert v * u * T == u * (v * T);
    assert D * (u * S) == u * (D * S);
  }

  /** With one digit less there is nothing in the interval: the digits end in no zero. */
  lemma NoneOneShorter(p: Scaled, v: nat, u: nat, k: nat, ds: seq<char>)
    requires 1 < |ds| <= k + 1 && AllDigits(ds) && ds[|ds| - 1] != '0'
    requires p.b == v * u && p.S == u * Pow(10, k) && p.lo < u && p.hi < u
    requires At(v, |ds|) == Num(ds) * Pow(10, k)
    ensures NoneInside(p, |ds| - 1)
  {
    var n := |ds|;
    var T, w := Pow(10, n - 2), Pow(10, k - n + 2);
    PowAdd(10, k - n + 2, n - 2);
    PowPositive(10, n - 2);
    PowPositive(10, k - n + 2);
    var front, last := Num(ds[..n - 1]), DigitOf(ds[n - 1]);
    assert Num(ds) == 10 * front + last;
    assert At(v, n) == v * (10 * T);
    var m := n - 1;
    assert At(p.b, m) == v * u * T && At(p.lo, m) == p.lo * T && At(p.hi, m) == p.hi * T;
    hide At, Pow, Num;
    forall E: int ensures !Inside(p, E, m) {
      NotOneShorter(p, v, u, w, T, front, last, E, m);
    }
  }

  lemma NotOneShorter(p: Scaled, v: nat, u: nat, w: nat, T: nat, front: nat, last: nat, E: int, m: nat)
    requires m > 0 && u > 0 && w > 0 && T > 0 && p.lo < u && p.hi < u && 0 < last < 10
    requires At(p.b, m) == v * u * T && At(p.lo, m) == p.lo * T && At(p.hi, m) == p.hi * T
    requires p.S == u * (w * T) && v * (10 * T) == (10 * front + last) * (w * T)
    ensures !Inside(p, E, m)
  {
    hide At;
    if Inside(p, E, m) {
      WithinOne(E, v, u, w, T, p.lo, p.hi);
      TenDivides(v, E, w, T, 10 * front + last);
    }
  }

  lemma WithinOne(E: int, v: nat, u: nat, w: nat, T: nat, lo: nat, hi: nat)
    requires u > 0 && T > 0 && lo < u && hi < u
    requires v * u * T - lo * T <= E * (u * (w * T)) <= v * u * T + hi * T
    ensures E * w == v
  {
    LessThan(lo, u, T);
    LessThan(hi, u, T);
    CommonUnit(E, v, u, w, T);
    NoMultiple(E * w - v, u * T, lo * T, hi * T);
  }

  lemma LessThan(x: nat, u: nat, T: nat)
    requires x < u && T > 0
    ensures x * T < u * T
  {
    MulMono(T, x + 1, u);
    MulAddOne(T, x);
  }

  lemma NoMultiple(e: int, t: nat, lo: nat, hi: nat)
    requires lo < t && hi < t && 0 <= e * t + lo && e * t <= hi
    ensures e == 0
  {
    if e >= 1 {
      MulMono(t, 1, e);
    } else if e <= -1 {
      MulMono(t, e, -1);
    }
  }

  lemma CommonUnit(E: int, v: int, u: int, w: int, T: int)
    ensures E * (u * (w * T)) - v * u * T == (E * w - v) * (u * T)
  {
    assert E * (u * (w * T)) == E * w * (u * T);
    assert v * u * T == v * (u * T);
  }

  lemma TenDivides(v: nat, E: int, w: nat, T: nat, D: nat)
    requires w > 0 && T > 0 && E * w == v && v * (10 * T) == D * (w * T)
    ensures D == 10 * E
  {
    assert v * (10 * T) == (10 * E) * (w * T);
    MulMono(w, 1, T);
    Multiples(w * T, D, 10 * E);
    Multiples(w * T, 10 * E, D);
  }

  /** Fixed digits of an integer. */
  lemma WholeRounded(d: Double, k: nat, ilim: nat, ds: seq<char>, up: nat)
    requires d.Valid() && d.Mantissa() > 0 && Whole(d) && Exponent(d, k) && ilim > 0
    requires Emitted(WholeValue(d), k, ilim, ds, up)
    ensures FixedOutput(d, k + 1 - ilim, ds, k + up + 1, KeepsZero(WholeValue(d), k, ilim))
  {
    WholeScale(d, k);
    PowPositive(10, k);
    hide Denotes, IsHalfEven, KeepsZero, At, Num, AllDigits, Pow, Unit, Ten, Double.Units, WholeValue, Whole, Emitted;
    var D := EmittedFixed(WholeValue(d), k, ilim, ds, up);
    ScaledRounding(WholeValue(d), Pow(10, k), d, k, ilim, D);
  }

  lemma EmittedFixed(v: nat, k: nat, ilim: nat, ds: seq<char>, up: nat) returns (D: nat)
    requires Emitted(v, k, ilim, ds, up) && ilim > 0
    ensures AllDigits(ds) && 0 < |ds| <= ilim && ds[0] != '0' && (ds[|ds| - 1] == '0' <==> KeepsZero(v, k, ilim))
    ensures D == Num(ds) * Pow(10, ilim + up - |ds|) && IsHalfEven(At(v, ilim), Pow(10, k), D)
  {
    D := Num(ds) * Pow(10, ilim + up - |ds|);
  }

  /** The short cut: digits of the integer itself, or of a place above all of them. */
  method SmallPart(d: Double, k0: int, mode: int, ilim: int, ndigits: int, s: array<char>)
    returns (n: nat, k: int)
    requires d.Valid() && d.Mantissa() > 0 && Whole(d) && Exponent(d, k0) && 0 <= k0 <= SmallIntegers.INT_MAX
    requires 0 <= mode <= 3
    requires mode < 2 ==> s.Length >= 17 && ilim == -1 && ndigits == 0
    requires mode == 2 ==> ilim == ndigits > 0
    requires mode == 3 ==> ilim == ndigits + k0 + 1
    requires mode >= 2 ==> 0 < s.Length && ilim <= s.Length
    modifies s
    ensures n <= s.Length
    ensures mode < 2 ==> n <= 17 && ShortestOutput(d, mode == 0 && d.Even(), s[..n], k + 1)
    ensures mode >= 2 ==> n <= 1 || n <= ilim
    ensures mode >= 2 ==> FixedOutput(d, k0 + 1 - ilim, s[..n], k + 1, KeepsZero(WholeValue(d), k0, ilim))
  {
    hide ShortestOutput, FixedOutput, Exponent, Whole, WholeValue, Denotes, IsHalfEven;
    var v := WholeValue(d);
    WholeScale(d, k0);
    TenToSmall(k0);
    if ndigits < 0 && ilim <= 0 {
      n, k := WholeNoDigits(d, v, k0, ilim, ndigits, s);
      return;
    }
    var up;
    n, up := EmitInteger(v, k0, ilim, s);
    k := k0 + up;
    if mode < 2 {
      WholeIsShortest(d, k0, s[..n], mode == 0 && d.Even());
    } else {
      WholeRounded(d, k0, ilim, s[..n], up);
    }
  }

  /** No digits asked for at or below the leading one. */
  method WholeNoDigits(d: Double, v: nat, k0: nat, ilim: int, ndigits: int, s: array<char>)
    returns (n: nat, k: int)
    requires Denotes(v, d.Units(), Pow(10, k0), k0) && v < 10 * Pow(10, k0) && Pow(10, k0) > 0
    requires ilim == ndigits + k0 + 1 <= 0 < s.Length
    modifies s
    ensures n <= 1 <= s.Length && FixedOutput(d, k0 + 1 - ilim, s[..n], k + 1, KeepsZero(v, k0, ilim))
  {
    hide Denotes, IsHalfEven;
    var none := ilim < 0 || v <= 5 * Pow(10, k0);
    RoundedAway(v, Pow(10, k0), d, k0, 1 - ilim, if none then 0 else 1);
    TrivialDigits();
    if none {
      assert s[..0] == [];
      return 0, -1 - ndigits;
    }
    s[0] := '1';
    assert s[..1] == "1";
    return 1, k0 + 1;
  }

  /** What modes 0-1 and modes 2-3 promise of the digits. */
  ghost predicate Converted(d: Double, mode: int, ndigits: int, k: int, ds: seq<char>, decpt: int) {
    && (mode < 2 ==> ShortestOutput(d, mode == 0 && d.Even(), ds, decpt))
    && (mode == 2 || mode == 3 ==>
          var p := RoundingPlace(mode, ndigits, k);
          FixedOutput(d, p, ds, decpt, ZeroKept(d, k, p)) && (|ds| <= 1 || |ds| <= k + 1 - p))
  }

  lemma ConvertedShortest(d: Double, mode: int, ndigits: int, k: int, ds: seq<char>, decpt: int)
    requires 0 <= mode < 2 && ShortestOutput(d, mode == 0 && d.Even(), ds, decpt)
    ensures Converted(d, mode, ndigits, k, ds, decpt)
  {
  }

  lemma ConvertedFixed(d: Double, mode: int, ndigits: int, k: int, ds: seq<char>, decpt: int, ilim: int, zero: bool)
    requires 2 <= mode <= 3
    requires ilim == if mode == 3 then ndigits + k + 1 else if ndigits <= 0 then 1 else ndigits
    requires FixedOutput(d, k + 1 - ilim, ds, decpt, zero) && (|ds| <= 1 || |ds| <= ilim)
    requires zero == (Whole(d) && 0 <= k <= SmallIntegers.INT_MAX && KeepsZero(WholeValue(d), k, ilim))
    ensures Converted(d, mode, ndigits, k, ds, decpt)
  {
    hide FixedOutput, KeepsZero, Whole, WholeValue;
  }

  /** The number taken apart, and one of the two exact ways to its digits. */
  method Exact(d: Double, mode: int, anyDigits: int, estimate: int, kCheck: bool, s: array<char>,
               ilim: int, ilim1: int, ndigits: int)
    returns (n: nat, decpt: int, ghost exponent: int)
    requires d.Valid() && 0 <= mode <= 3
    requires d.Mantissa() > 0 && Estimated(d, estimate, kCheck)
    requires mode < 2 ==> ilim == ilim1 == -1 && ndigits == 0 && s.Length > 17
    requires mode == 2 ==> ilim == ilim1 == ndigits == FirstLimit(mode, anyDigits, estimate)
    requires mode == 3 ==> ilim == ndigits + estimate + 1 && ilim1 == ilim - 1 && ndigits == anyDigits
    requires 1 < s.Length && ilim < s.Length
    modifies s
    ensures n < s.Length
    ensures Exponent(d, exponent) && Converted(d, mode, anyDigits, exponent, s[..n], decpt)
  {
    assert kCheck ==> estimate < 0 || estimate > 22;
    hide Prepared, ShortestOutput, FixedOutput, Exponent, Estimated, Converted;
    hide Whole, WholeValue, KeepsZero, TakenApart, Val;
    var b, be, bbits := D2b(d);
    var k := estimate;
    WholeWhen(d, b, be, bbits);
    if be >= 0 && k <= SmallIntegers.INT_MAX {
      WholeExponent(d, k, kCheck);
      exponent := k;
      n, k := SmallPart(d, k, mode, ilim, ndigits, s);
    } else {
      n, k, exponent := BigPart(d, b, be, bbits, k, kCheck, mode, ilim, ilim1, ndigits, s);
    }
    decpt := k + 1;
    if mode < 2 {
      ConvertedShortest(d, mode, anyDigits, exponent, s[..n], decpt);
    } else {
      ghost var zero := be >= 0 && estimate <= SmallIntegers.INT_MAX && KeepsZero(WholeValue(d), exponent, ilim);
      ConvertedFixed(d, mode, anyDigits, exponent, s[..n], decpt,
                     if mode == 2 then ilim else ndigits + exponent + 1, zero);
    }
  }

  /** Nonzero d: s[..n] are the digits, the decimal point is before place decpt. */
  method Convert(d: Double, anyMode: int, anyDigits: int, estimate: int, kCheck: bool, quick: Shortcut)
    returns (s: array<char>, n: nat, decpt: int, ghost exponent: int)
    requires d.Valid() && PlainMode(anyMode) <= 3
    requires d.Mantissa() > 0 && Estimated(d, estimate, kCheck)
    requires TriesShortcut(anyMode, anyDigits, estimate) ==> Fits(quick, FirstLimit(anyMode, anyDigits, estimate))
    ensures n < s.Length && fresh(s)
    ensures if TriesShortcut(anyMode, anyDigits, estimate) && quick.Took? then
              s[..n] == quick.text && decpt == quick.k + 1
            else
              Exponent(d, exponent) && Converted(d, PlainMode(anyMode), anyDigits, exponent, s[..n], decpt)
  {
    hide Exponent, Converted, Estimated;
    var mode := PlainMode(anyMode);
    var tryQuick := !(5 < anyMode <= 9);
    var ilim, ilim1, i, ndigits := Limits(mode, anyDigits, estimate);
    s := new char[i + 1];
    if 0 <= ilim <= QUICK_MAX && tryQuick && quick.Took? {
      n := |quick.text|;
      forall j | 0 <= j < n {
        s[j] := quick.text[j];
      }
      assert s[..n] == quick.text;
      return s, n, quick.k + 1, estimate;
    }
    n, decpt, exponent := Exact(d, mode, anyDigits, estimate, kCheck, s, ilim, ilim1, ndigits);
  }

  // What the modes are for.

  /** The half-gap used below v is the true one for every double but the least normal one. */
  lemma LowGapExact(d: Double)
    requires d.Valid() && d.Mantissa() > 0
    ensures LowGap(d) == d.HalfDown() <==> !(d.e == 1 && d.f == 0)
    ensures LowGap(d) <= d.HalfDown()
  {
    PowTwo(d.Level() - 1);
    PowPositive(2, d.Level() - 1);
  }

  /** Mode 0 output, read with round-to-nearest-even, gives back the very same double. */
  lemma ReadsBack(d: Double, ds: seq<char>, decpt: int)
    requires d.Valid() && d.Mantissa() > 0 && ShortestOutput(d, d.Even(), ds, decpt)
    ensures ReadsBackAs(Num(ds), decpt - |ds|, d)
  {
    LowGapExact(d);
    hide InGap, LowGap, Double.HalfDown;
    WiderGap(d, LowGap(d), d.HalfDown(), d.HalfUp(), d.Even(), Num(ds), decpt - |ds|);
    ReadsBackExactlyInGap(Num(ds), decpt - |ds|, d);
  }

  /** No decimal with fewer digits reads back as d. */
  lemma NothingShorterReadsBack(d: Double, ds: seq<char>, decpt: int, N: nat, q: int, m: nat)
    requires d.Valid() && d.Mantissa() > 0 && ShortestOutput(d, d.Even(), ds, decpt)
    requires 0 < m < |ds| && N < Pow(10, m)
    ensures !ReadsBackAs(N, q, d)
  {
    if d == LEAST {
      PowMonotone(10, m, 16);
      TooFewDigits(N, q);
    } else {
      LowGapExact(d);
      ReadsBackExactlyInGap(N, q, d);
    }
  }

  /** Mode 1 stays strictly inside the gap, so no reader's tie-breaking rule can matter. */
  lemma ReadsBackStrictly(d: Double, ds: seq<char>, decpt: int)
    requires d.Valid() && d.Mantissa() > 0 && ShortestOutput(d, false, ds, decpt)
    ensures NearestTo(Num(ds), decpt - |ds|, d)
  {
    LowGapExact(d);
    hide InGap, LowGap, Double.HalfDown, Dist;
    WiderGap(d, LowGap(d), d.HalfDown(), d.HalfUp(), false, Num(ds), decpt - |ds|);
    NearestStrictlyInGap(Num(ds), decpt - |ds|, d);
  }

  /** No decimal with fewer digits does. */
  lemma NothingShorterIsNearest(d: Double, ds: seq<char>, decpt: int, N: nat, q: int, m: nat)
    requires d.Valid() && d.Mantissa() > 0 && ShortestOutput(d, false, ds, decpt)
    requires 0 < m < |ds| && N < Pow(10, m)
    ensures !NearestTo(N, q, d)
  {
    NearestStrictlyInGap(N, q, d);
    if d == LEAST {
      PowMonotone(10, m, 16);
      TooFewDigits(N, q);
    } else {
      LowGapExact(d);
    }
  }

  /** Mode by mode: the shortest decimal that reads back; the shortest that is closer to d than to any other double;
      so many significant digits, at least one; so many digits behind the point. */
  ghost predicate ByMode(d: Double, anyMode: int, ndigits: int, k: int, ds: seq<char>, decpt: int)
    requires AllDigits(ds)
  {
    var (N, q) := (Num(ds), decpt - |ds|);
    if anyMode == 1 then
      && NearestTo(N, q, d)
      && forall N': nat, q': int, m: nat :: 0 < m < |ds| && N' < Pow(10, m) ==> !NearestTo(N', q', d)
    else if anyMode == 2 || anyMode == 6 then
      RoundedAt(d, k + 1 - (if ndigits < 1 then 1 else ndigits), N, q)
    else if anyMode == 3 || anyMode == 7 then
      RoundedAt(d, -ndigits, N, q) && (|ds| == 0 ==> decpt == -ndigits)
    else
      && ReadsBackAs(N, q, d)
      && forall N': nat, q': int, m: nat :: 0 < m < |ds| && N' < Pow(10, m) ==> !ReadsBackAs(N', q', d)
  }

  lemma ModesKept(d: Double, anyMode: int, ndigits: int, k: int, ds: seq<char>, decpt: int)
    requires d.Valid() && d.Mantissa() > 0 && PlainMode(anyMode) <= 3
    requires Converted(d, PlainMode(anyMode), ndigits, k, ds, decpt)
    ensures AllDigits(ds) && ByMode(d, anyMode, ndigits, k, ds, decpt)
  {
    hide ReadsBackAs, NearestTo, RoundedAt, InGap, NoShorter, Closest, Num, ZeroKept;
    var mode := PlainMode(anyMode);
    if mode == 0 {
      ReadsBack(d, ds, decpt);
      forall N: nat, q: int, m: nat | 0 < m < |ds| && N < Pow(10, m) ensures !ReadsBackAs(N, q, d) {
        NothingShorterReadsBack(d, ds, decpt, N, q, m);
      }
    } else if mode == 1 {
      ReadsBackStrictly(d, ds, decpt);
      forall N: nat, q: int, m: nat | 0 < m < |ds| && N < Pow(10, m) ensures !NearestTo(N, q, d) {
        NothingShorterIsNearest(d, ds, decpt, N, q, m);
      }
    }
  }

  /** The digits are s[..n], followed by NUL, with the decimal point before place decpt. */
  method Dtoa(d: Double, anyMode: int, ndigits: int, estimate: int, kCheck: bool, quick: Shortcut)
    returns (s: array<char>, n: nat, decpt: int, ghost exponent: int)
    requires d.Valid() && PlainMode(anyMode) <= 3
    requires d.Mantissa() > 0 ==> Estimated(d, estimate, kCheck)
    requires TriesShortcut(anyMode, ndigits, estimate) ==> Fits(quick, FirstLimit(anyMode, ndigits, estimate))
    ensures n < s.Length && s[n] == '\0'
    ensures d.Mantissa() == 0 ==> s[..n] == "0" && decpt == 1
    ensures d.Mantissa() > 0 ==>
              if TriesShortcut(anyMode, ndigits, estimate) && quick.Took? then
                s[..n] == quick.text && decpt == quick.k + 1
              else
                Exponent(d, exponent) && Converted(d, PlainMode(anyMode), ndigits, exponent, s[..n], decpt)
    ensures d.Mantissa() > 0 && !(quick.Took? && ((anyMode == 2 && ndigits <= 14)
                                                  || (anyMode == 3 && 0 <= ndigits + estimate + 1 <= 14))) ==>
              AllDigits(s[..n]) && ByMode(d, anyMode, ndigits, exponent, s[..n], decpt)
  {
    hide Converted, Exponent, Estimated, ByMode;
    if d.Mantissa() == 0 {
      s := new char[2]['0', '\0'];
      return s, 1, 1, estimate;
    }
    s, n, decpt, exponent := Convert(d, anyMode, ndigits, estimate, kCheck, quick);
    ghost var ds := s[..n];
    s[n] := '\0';
    assert s[..n] == ds;
    if !(TriesShortcut(anyMode, ndigits, estimate) && quick.Took?) {
      ModesKept(d, anyMode, ndigits, exponent, ds, decpt);
    }
  }

  /** 1002, to two digits in mode 6: no shortcut is tried, and the zero of "10" is kept. */
  lemma TrailingZeroSurvives()
    ensures var d := Double(1032, 490 * 0x800_0000_0000);
            && d.Valid() && d.Mantissa() > 0 && WholeValue(d) == 1002
            && Estimated(d, 3, false) && Exponent(d, 3) && !TriesShortcut(6, 2, 3)
            && ZeroKept(d, 3, RoundingPlace(PlainMode(6), 2, 3))
  {
    var d := Double(1032, 490 * 0x800_0000_0000);
    assert Pow(10, 2) == 100 && Pow(10, 3) == 1000 && Pow(10, 4) == 10000;
    assert Ten(-3) == 1 && Ten(-4) == 1 && Ten(3) == 1000 && Ten(4) == 10000;
    UnitPositive();
    Scaled1002(d);
    DivisionUnique(d.Units(), Unit(), 1002, 0);
  }

  lemma Scaled1002(d: Double)
    requires d == Double(1032, 490 * 0x800_0000_0000)
    ensures d.Units() == 1002 * Unit()
  {
    PowAdd(2, 43, 1033);
    assert Pow(2, 11) == 2048;
    PowAdd(2, 11, 11);
    PowAdd(2, 22, 11);
    PowAdd(2, 33, 10);
    assert Pow(2, 10) == 1024;
    hide Pow;
    MulAssoc(1002, Pow(2, 43), Pow(2, 1033));
  }
}
