/** How `_dtoa_r` turns a double and a power of ten into a quotient of integers. */
module Scaling {
  import opened Powers
  import opened Bigints
  import opened Mprec
  import opened Doubles
  import opened Unpacking

  /** 2^1076: `Double.Units` counts in 1/Unit(). */
  function Unit(): nat {
    Pow(2, 1076)
  }

  /** 10^k for positive k, otherwise 1; so 10^k is Ten(k) / Ten(-k). */
  function Ten(k: int): nat {
    if k > 0 then Pow(10, k) else 1
  }

  lemma TenPositive(k: int)
    ensures Ten(k) > 0
  {
    if k > 0 {
      PowPositive(10, k);
    }
  }

  lemma UnitPositive()
    ensures Unit() > 0
  {
    PowPositive(2, 1076);
  }

  /** x/S is `units`/Unit() divided by 10^k. */
  ghost predicate Denotes(x: nat, units: nat, S: nat, k: int) {
    x * (Unit() * Ten(k)) == units * (S * Ten(-k))
  }

  /** 10^k <= v. */
  predicate AtLeastTen(d: Double, k: int) {
    Unit() * Ten(k) <= d.Units() * Ten(-k)
  }

  /** The numbers 2^a * 5^b. */
  function P25(a: nat, b: nat): nat {
    Pow(2, a) * Pow(5, b)
  }

  lemma P25Mul(a: nat, b: nat, c: nat, d: nat)
    ensures P25(a, b) * P25(c, d) == P25(a + c, b + d)
  {
    PowAdd(2, a, c);
    PowAdd(5, b, d);
    MulSwap(Pow(2, a), Pow(5, b), Pow(2, c), Pow(5, d));
  }

  lemma TenP25(k: int)
    ensures Ten(k) == if k > 0 then P25(k, k) else P25(0, 0)
    ensures Unit() == P25(1076, 0)
  {
    if k > 0 {
      PowBase(2, 5, k);
    }
  }

  /** Scaling is a matter of exponents. */
  lemma FromExponents(c: nat, x2: nat, x5: nat, s2: nat, s5: nat, u2: nat, k: int)
    requires x2 - s2 == u2 - 1076 - k && x5 - s5 == -k
    ensures Denotes(c * P25(x2, x5), c * Pow(2, u2), P25(s2, s5), k)
  {
    var kp, kn := if k > 0 then k else 0, if k < 0 then -k else 0;
    TenP25(k);
    TenP25(-k);
    P25Mul(1076, 0, kp, kp);
    P25Mul(x2, x5, 1076 + kp, kp);
    P25Mul(s2, s5, kn, kn);
    P25Mul(u2, 0, s2 + kn, s5 + kn);
    assert Pow(2, u2) == P25(u2, 0);
    Assoc(c, P25(x2, x5), P25(1076 + kp, kp));
    Assoc(c, P25(u2, 0), P25(s2 + kn, s5 + kn));
  }

  lemma Assoc(a: int, b: int, c: int)
    ensures a * b * c == a * (b * c)
  {
  }

  /** The k repair: ten times the numerator over one power of ten less. */
  lemma DenotesTenth(x: nat, units: nat, S: nat, k: int)
    requires Denotes(x, units, S, k)
    ensures Denotes(10 * x, units, S, k - 1)
  {
    if k > 0 {
      TenStep(k);
      assert Ten(-k) == 1 && Ten(1 - k) == 1;
      ShiftTen(x, Unit(), Ten(k - 1));
    } else {
      TenStep(1 - k);
      assert Ten(k) == 1 && Ten(k - 1) == 1;
      ShiftTen(units, S, Ten(-k));
      Assoc(10, x, Unit());
    }
  }

  lemma TenStep(k: int)
    requires k > 0
    ensures Ten(k) == 10 * Ten(k - 1)
  {
    assert Pow(10, 0) == 1;
  }

  lemma ShiftTen(x: int, u: int, t: int)
    ensures x * (u * (10 * t)) == 10 * x * (u * t)
    ensures x * (u * (10 * t)) == 10 * (x * (u * t))
  {
  }

  /** b < S exactly when v < 10^k. */
  lemma CompareToOne(b: nat, d: Double, S: nat, k: int)
    requires Denotes(b, d.Units(), S, k) && S > 0
    ensures S <= b <==> AtLeastTen(d, k)
  {
    TenPositive(k);
    UnitPositive();
    MulMono(Unit(), 1, Ten(k));
    var u := Unit() * Ten(k);
    Reorder(d.Units(), S, Ten(-k));
    if S <= b {
      MulMono(u, S, b);
      MulCancel(S, u, d.Units() * Ten(-k));
    }
    if AtLeastTen(d, k) {
      MulMono(S, u, d.Units() * Ten(-k));
      MulCancel(u, S, b);
    }
  }

  lemma Reorder(a: int, b: int, c: int)
    ensures a * (b * c) == b * (a * c)
  {
  }

  lemma DenotesWider(x: nat, units: nat, S: nat, k: int)
    requires Denotes(x, units, S, k)
    ensures Denotes(x, units, 10 * S, k + 1)
  {
    if k >= 0 {
      TenStep(k + 1);
      assert Ten(-k) == 1 && Ten(-k - 1) == 1;
      ShiftTen(x, Unit(), Ten(k));
      Assoc(10, units, S);
      ShiftTen(units, 1, S);
    } else {
      TenStep(-k);
      assert Ten(k) == 1 && Ten(k + 1) == 1;
      assert Ten(-k) == 10 * Ten(-k - 1);
      ShiftTen(units, S, Ten(-k - 1));
      assert S * (10 * Ten(-k - 1)) == 10 * S * Ten(-k - 1);
    }
  }

  // Alignment of the divisor.

  lemma ShiftBits(v: nat, n: nat, s: nat)
    requires HasBits(v, n)
    ensures HasBits(v * Pow(2, s), n + s)
  {
    PowAdd(2, n - 1, s);
    PowAdd(2, n, s);
    PowPositive(2, s);
    Between(Pow(2, s), Pow(2, n - 1), v, Pow(2, n));
  }

  lemma BitsUnique(v: nat, m: nat, n: nat)
    requires HasBits(v, m) && HasBits(v, n)
    ensures m == n
  {
    if m < n {
      PowMonotone(2, m, n - 1);
    } else if n < m {
      PowMonotone(2, n, m - 1);
    }
  }

  /** With 28 more bits than a whole number of words, the top word has its four high bits clear. */
  lemma TopFromBits(s: seq<Word>, n: nat)
    requires |s| > 0 && (|s| > 1 ==> s[|s| - 1] != 0) && HasBits(Val(s), n) && n % 32 == 28
    ensures 0x800_0000 <= s[|s| - 1] < 0x1000_0000
  {
    PowPositive(2, n - 1);
    hide Val, Pow, Hi0bits;
    var m := CountBits(s);
    BitsUnique(Val(s), n, m);
    LeadingFour(n, |s|, Hi0bits(s[|s| - 1]));
    FourHighZeros(s[|s| - 1]);
  }

  lemma LeadingFour(n: nat, words: nat, h: nat)
    requires n == 32 * words - h && h <= 31 && n % 32 == 28
    ensures h == 4
  {
  }

  lemma FourHighZeros(x: Word)
    requires x > 0 && Hi0bits(x) == 4
    ensures 0x800_0000 <= x < 0x1000_0000
  {
    WordPowers();
  }

  // The exponents of 2 and 5 in the numerator, in the half-gap and in the divisor.

  datatype Exponents = Exponents(b2: int, b5: int, m2: int, m5: int, s2: int, s5: int)

  /** Normalised power of two: the gap below is half the gap above. */
  predicate SpecialCase(d: Double) {
    d.f == 0 && d.e > 0
  }

  /** The half-gap below that the source uses, in units. */
  function LowGap(d: Double): nat {
    if SpecialCase(d) then Pow(2, d.Level() - 1) else d.HalfUp()
  }

  /** What the exponents must satisfy for b, mlo and S to denote v, the half-gap and 1. */
  ghost predicate Balanced(x: Exponents, be: int, k: int, d: Double, leftright: bool) {
    && x.b2 >= 0 && x.b5 >= 0 && x.m2 >= 0 && x.m5 >= 0 && x.s2 >= 0 && x.s5 >= 0
    && x.b2 - x.s2 == be - k && x.b5 - x.s5 == -k
    && (leftright ==> x.m5 == x.b5 && x.m2 - x.s2 == d.Level() - 1076 - k - (if SpecialCase(d) then 1 else 0))
  }

  /** Signs of the exponents sorted into numerator and divisor, and the half-gap of modes 0 and 1. */
  method Split(d: Double, be: int, bbits: nat, k: int, leftright: bool) returns (x: Exponents)
    requires d.Valid() && be >= -1074 && (d.e > 0 ==> be + bbits == d.e - 1022 && bbits <= 53)
    ensures Balanced(x, be, k, d, leftright)
  {
    // binary exponent of the leading bit
    var i := if d.e > 0 then d.e - 1023 else bbits + be + 1074 - 1075;
    var j := bbits - i - 1;
    var b2, s2, b5, s5;
    if j >= 0 {
      b2, s2 := 0, j;
    } else {
      b2, s2 := -j, 0;
    }
    if k >= 0 {
      b5, s5 := 0, k;
      s2 := s2 + k;
    } else {
      b2 := b2 - k;
      b5, s5 := -k, 0;
    }
    var m2, m5 := b2, b5;
    if leftright {
      i := if d.e == 0 then be + (1023 + (53 - 1) - 1 + 1) else 1 + 53 - bbits;
      b2, s2 := b2 + i, s2 + i;
    }
    if m2 > 0 && s2 > 0 {
      i := if m2 < s2 then m2 else s2;
      b2, m2, s2 := b2 - i, m2 - i, s2 - i;
    }
    if leftright && SpecialCase(d) {
      b2, s2 := b2 + 1, s2 + 1;
    }
    x := Exponents(b2, b5, m2, m5, s2, s5);
  }

  /** Common shift that leaves the divisor four leading zero bits; bits counts those of 5^s5. */
  method Align(x: Exponents, bits: nat) returns (y: Exponents)
    requires x.s2 >= 0
    ensures (y.s2 + bits) % 32 == 28
    ensures y.s2 >= x.s2 && y == x.(b2 := x.b2 + y.s2 - x.s2, m2 := x.m2 + y.s2 - x.s2, s2 := y.s2)
  {
    var i := (bits + x.s2) % 32;
    if i != 0 {
      i := 32 - i;
    }
    if i > 4 {
      i := i - 4;
    } else if i < 4 {
      i := i + 28;
    } else {
      i := 0;
    }
    y := x.(b2 := x.b2 + i, m2 := x.m2 + i, s2 := x.s2 + i);
  }

  /** Two ways to c * 5^(i + j): through the shared 5^i, or at once. */
  lemma TimesFive(c: nat, i: nat, j: nat)
    ensures 1 * Pow(5, i) == Pow(5, i) && Pow(5, 0) == 1 && c * 1 == c
    ensures Pow(5, i) * c * Pow(5, j) == c * Pow(5, i + j)
    ensures i == 0 ==> c * Pow(5, j) == c * Pow(5, i + j)
    ensures j == 0 ==> Pow(5, i) * c == c * Pow(5, i + j)
  {
    PowAdd(5, i, j);
    Assoc(c, Pow(5, i), Pow(5, j));
  }

  lemma ShiftFive(c: nat, a: nat, b: nat)
    ensures c * Pow(5, b) * Pow(2, a) == c * P25(a, b)
  {
    Assoc(c, Pow(5, b), Pow(2, a));
  }

  /** b becomes b * 5^b5, sharing the power with mhi when there is one. */
  method ApplyFives(b0: Bigint, mhi0: Bigint?, b5: nat, m5: nat) returns (b: Bigint, mhi: Bigint?)
    requires Positive(b0) && (mhi0 != null ==> Positive(mhi0) && mhi0.Value() == 1 && m5 <= b5)
    requires mhi0 != null ==> mhi0 != b0 && mhi0.x != b0.x
    modifies b0`wds, b0.x, if mhi0 == null then {} else {mhi0, mhi0.x}
    ensures b == b0 || (fresh(b) && fresh(b.x))
    ensures Positive(b) && b.Value() == old(b0.Value()) * Pow(5, b5) && (b0.x.Length > 1 ==> b.x.Length > 1)
    ensures mhi0 == null <==> mhi == null
    ensures mhi != null ==> (mhi == mhi0 || (fresh(mhi) && fresh(mhi.x))) && mhi != b && mhi.x != b.x
    ensures mhi != null ==> Positive(mhi) && mhi.Value() == Pow(5, m5)
  {
    hide Val, Pow;
    b, mhi := b0, mhi0;
    ghost var v := b.Value();
    TimesFive(v, 0, 0);
    FivesPositive(v, m5, b5);
    if b5 > 0 {
      if mhi != null {
        TimesFive(v, m5, b5 - m5);
        if m5 > 0 {
          mhi := Pow5Mult(mhi, m5);
          b := Mult(mhi, b);
        }
        if b5 - m5 != 0 {
          b := Pow5Mult(b, b5 - m5);
        }
      } else {
        b := Pow5Mult(b, b5);
      }
    }
  }

  lemma FivesPositive(v: nat, i: nat, j: nat)
    requires v > 0
    ensures v * Pow(5, i) > 0 && v * Pow(5, j) > 0 && Pow(5, i) > 0 && Pow(5, i) * v > 0
  {
    PowPositive(5, i);
    PowPositive(5, j);
    MulMono(v, 1, Pow(5, i));
    MulMono(v, 1, Pow(5, j));
  }

  /** Significant bits of 5^s5 up to whole words, read off its top word. */
  method BitsToAlign(S: Bigint, s5: nat) returns (bits: nat, ghost n: nat)
    requires S.Valid() && S.wds > 0 && S.Value() > 0 && (s5 == 0 ==> S.Value() == 1)
    ensures HasBits(S.Value(), n) && n % 32 == bits % 32
  {
    hide Val, Pow, HasBits;
    n := CountBits(S.x[..S.wds]);
    if s5 != 0 {
      var h := CountHi0bits(S.x[S.wds - 1]);
      bits := 32 - h;
    } else {
      OneHasOneBit(S.x[..S.wds]);
      bits := 1;
    }
  }

  lemma SameModulo(n: nat, bits: nat, s: nat)
    requires n % 32 == bits % 32 && (s + bits) % 32 == 28
    ensures (n + s) % 32 == 28
  {
  }

  /** The divisor 5^s5 * 2^s2, shifted together with the numerator so that `quorem` can estimate. */
  method Divisor(x: Exponents) returns (S: Bigint, y: Exponents)
    requires x.s2 >= 0 && x.s5 >= 0
    ensures fresh(S) && fresh(S.x) && Aligned(S)
    ensures y.s2 >= x.s2 && y == x.(b2 := x.b2 + y.s2 - x.s2, m2 := x.m2 + y.s2 - x.s2, s2 := y.s2)
    ensures S.Value() == P25(y.s2, y.s5)
  {
    hide Val, Pow, P25, HasBits;
    S := I2b(1);
    FivesAlone(x.s5);
    if x.s5 > 0 {
      S := Pow5Mult(S, x.s5);
    }
    var bits, n := BitsToAlign(S, x.s5);
    y := Align(x, bits);
    SameModulo(n, bits, y.s2);
    S := ShiftAligned(S, y.s2, y.s5, n);
  }

  /** The last shift of the divisor, to a bit count that leaves four leading zeroes. */
  method ShiftAligned(S0: Bigint, s2: nat, ghost s5: nat, ghost n: nat) returns (S: Bigint)
    requires S0.Valid() && S0.wds > 0 && S0.Value() == Pow(5, s5)
    requires HasBits(S0.Value(), n) && (n + s2) % 32 == 28
    ensures S == S0 || (fresh(S) && fresh(S.x))
    ensures Aligned(S) && S.Value() == P25(s2, s5)
  {
    hide Val, Pow, P25, HasBits;
    S := S0;
    FivesAlone(s5);
    ShiftBits(S.Value(), n, s2);
    DivisorValue(s2, s5);
    if s2 > 0 {
      S := Lshift(S, s2);
    }
    TopFromBits(S.x[..S.wds], n + s2);
  }

  lemma DivisorValue(s2: nat, s5: nat)
    ensures Pow(5, s5) * Pow(2, s2) == P25(s2, s5)
    ensures s2 == 0 ==> Pow(5, s5) == P25(s2, s5) && Pow(5, s5) * Pow(2, s2) == Pow(5, s5)
  {
  }

  lemma FivesAlone(s5: nat)
    ensures 1 * Pow(5, s5) == Pow(5, s5) > 0
    ensures s5 == 0 ==> Pow(5, s5) == 1
  {
    PowPositive(5, s5);
  }

  /** The number of significant bits, as its top word shows it. */
  lemma CountBits(s: seq<Word>) returns (n: nat)
    requires |s| > 0 && (|s| > 1 ==> s[|s| - 1] != 0) && Val(s) > 0
    ensures s[|s| - 1] > 0 && HasBits(Val(s), n)
    ensures n == 32 * |s| - Hi0bits(s[|s| - 1])
  {
    TopPositive(s);
    BitsOfTop(s);
    n := 32 * |s| - Hi0bits(s[|s| - 1]);
  }

  lemma OneHasOneBit(s: seq<Word>)
    requires |s| > 0 && s[|s| - 1] > 0 && Val(s) == 1
    ensures (32 * |s| - Hi0bits(s[|s| - 1])) % 32 == 1
  {
    assert HasBits(1, 1) by {
      assert Pow(2, 0) == 1 && Pow(2, 1) == 2;
    }
    hide HasBits, Pow, Val, Hi0bits;
    BitsOfTop(s);
    BitsUnique(1, 1, 32 * |s| - Hi0bits(s[|s| - 1]));
  }

  /** v/10^k as b/S and, in modes 0 and 1, the half-gap below as mhi * 2^m2 over S. */
  method Scale(d: Double, b0: Bigint, be: int, bbits: nat, k: int, leftright: bool)
    returns (b: Bigint, S: Bigint, mhi: Bigint?, m2: nat)
    requires d.Valid() && TakenApart(d, b0, be, bbits)
    modifies b0`wds, b0.x
    ensures b == b0 || (fresh(b) && fresh(b.x))
    ensures fresh(S) && fresh(S.x) && b != S && b.x != S.x
    ensures b.Valid() && b.wds > 0 && b.x.Length > 1 && Aligned(S)
    ensures Denotes(b.Value(), d.Units(), S.Value(), k)
    ensures leftright <==> mhi != null
    ensures mhi != null ==> fresh(mhi) && fresh(mhi.x) && Positive(mhi)
    ensures mhi != null ==> mhi != b && mhi.x != b.x && mhi != S && mhi.x != S.x
    ensures mhi != null ==> Denotes(mhi.Value() * Pow(2, m2), LowGap(d), S.Value(), k)
  {
    hide Val, Pow, P25, Denotes, LowGap, Double.Units, Double.HalfUp, Aligned;
    b := b0;
    ghost var bint := b.Value();
    var x := Split(d, be, bbits, k, leftright);
    mhi := null;
    if leftright {
      mhi := I2b(1);
    }
    b, mhi := ApplyFives(b, mhi, x.b5, x.m5);
    var y;
    S, y := Divisor(x);
    NumeratorDenotes(d, bint, y, be, k);
    if leftright {
      HalfGapDenotes(d, y, k);
    }
    m2 := y.m2;
    if y.b2 > 0 {
      b := Lshift(b, y.b2);
    }
  }

  lemma NumeratorDenotes(d: Double, bint: nat, y: Exponents, be: int, k: int)
    requires be + 1076 >= 0 && bint * Pow(2, be + 1076) == d.Units()
    requires y.b2 >= 0 && y.b5 >= 0 && y.s2 >= 0 && y.s5 >= 0
    requires y.b2 - y.s2 == be - k && y.b5 - y.s5 == -k
    ensures Denotes(bint * Pow(5, y.b5) * Pow(2, y.b2), d.Units(), P25(y.s2, y.s5), k)
    ensures y.b2 == 0 ==> bint * Pow(5, y.b5) * Pow(2, y.b2) == bint * Pow(5, y.b5)
  {
    ShiftFive(bint, y.b2, y.b5);
    FromExponents(bint, y.b2, y.b5, y.s2, y.s5, be + 1076, k);
  }

  lemma HalfGapDenotes(d: Double, y: Exponents, k: int)
    requires y.m2 >= 0 && y.m5 >= 0 && y.s2 >= 0 && y.s5 >= 0 && y.m5 - y.s5 == -k
    requires y.m2 - y.s2 == d.Level() - 1076 - k - (if SpecialCase(d) then 1 else 0)
    ensures Denotes(Pow(5, y.m5) * Pow(2, y.m2), LowGap(d), P25(y.s2, y.s5), k)
  {
    var u := d.Level() - (if SpecialCase(d) then 1 else 0);
    ShiftFive(1, y.m2, y.m5);
    FromExponents(1, y.m2, y.m5, y.s2, y.s5, u, k);
  }
}
