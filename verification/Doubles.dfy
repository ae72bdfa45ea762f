/** IEEE doubles as the exact numbers `d2b` takes them for, and the gaps between neighbours. */
module Doubles {
  import opened Powers

  const TWO52 := 0x10_0000_0000_0000

  /** A non-negative finite double: biased exponent field and fraction field. */
  datatype Double = Double(e: nat, f: nat) {
    predicate Valid() {
      e <= 2046 && f < TWO52
    }

    /** The finite doubles and, for overflow, the first power of two above them. */
    predicate Candidate() {
      f < TWO52 && (e <= 2046 || (e == 2047 && f == 0))
    }

    /** Exponent of the unit in the last place, plus 1075; denormals share that of the least normals. */
    function Level(): nat
      ensures Level() >= 1
    {
      if e == 0 then 1 else e
    }

    function Mantissa(): nat {
      if e == 0 then f else TWO52 + f
    }

    /** The number denoted, in units of 2^-1076, a quarter of the least denormal. */
    function Units(): nat {
      Mantissa() * Pow(2, Level() + 1)
    }

    predicate Even() {
      f % 2 == 0
    }

    /** Half the distance to the next double up and to the next one down. */
    function HalfUp(): nat {
      Pow(2, Level())
    }

    function HalfDown(): nat {
      if f == 0 && e >= 2 then Pow(2, Level() - 1) else Pow(2, Level())
    }
  }

  /** A double on a higher level is at least one unit of the lower one above it. */
  lemma HigherLevel(d: Double, d': Double)
    requires d.f < TWO52 && d'.f < TWO52 && d.Level() < d'.Level()
    ensures d'.Units() >= d.Units() + 2 * d.HalfUp()
    ensures d'.Units() == d.Units() + 2 * d.HalfUp() ==> !d.Even()
    ensures d.Units() <= d'.Units() - 2 * d'.HalfDown()
    ensures d.Units() == d'.Units() - 2 * d'.HalfDown() ==> !d.Even()
  {
    var p, q := Pow(2, d.Level() + 1), Pow(2, d'.Level());
    PowMonotone(2, d.Level() + 1, d'.Level());
    PowPositive(2, d.Level() + 1);
    assert Pow(2, d'.Level() + 1) == 2 * q;
    LevelGap(d.Mantissa(), d'.Mantissa(), p, q);
    assert d'.f == 0 ==> 2 * d'.HalfDown() == q;
    GapBelow(d.Mantissa(), d'.Mantissa(), p, q, 2 * d'.HalfDown());
  }

  lemma LevelGap(m: nat, m': nat, p: nat, q: nat)
    requires m < 2 * TWO52 && m' >= TWO52 && 0 < p <= q
    ensures m' * (2 * q) >= m * p + p
    ensures m' * (2 * q) == m * p + p ==> m == 2 * TWO52 - 1
  {
    MulMono(2 * q, TWO52, m');
    AtMostTop(m, p);
  }

  lemma AtMostTop(m: nat, p: nat)
    requires m < 2 * TWO52 && p > 0
    ensures m * p <= (2 * TWO52 - 1) * p
    ensures m * p == (2 * TWO52 - 1) * p ==> m == 2 * TWO52 - 1
  {
    MulMono(p, m, 2 * TWO52 - 1);
    if m < 2 * TWO52 - 1 {
      MulMono(p, m + 1, 2 * TWO52 - 1);
      MulAddOne(p, m);
    }
  }

  lemma GapBelow(m: nat, m': nat, p: nat, q: nat, gap: nat)
    requires m < 2 * TWO52 && m' >= TWO52 && 0 < p <= q
    requires gap == if m' == TWO52 then q else 2 * q
    ensures m * p <= m' * (2 * q) - gap
    ensures m * p == m' * (2 * q) - gap ==> m == 2 * TWO52 - 1
  {
    AtMostTop(m, p);
    if m' > TWO52 {
      MulMono(2 * q, TWO52 + 1, m');
    }
  }

  lemma SameLevel(d: Double, d': Double)
    requires d.f < TWO52 && d'.f < TWO52 && d.Level() == d'.Level() && d.Mantissa() < d'.Mantissa()
    ensures d'.Units() >= d.Units() + 2 * d.HalfUp()
    ensures d'.Units() == d.Units() + 2 * d.HalfUp() && d.Even() ==> !d'.Even()
    ensures d.Units() <= d'.Units() - 2 * d'.HalfDown()
    ensures d.Units() == d'.Units() - 2 * d'.HalfDown() && d'.Even() ==> !d.Even()
  {
    var p := Pow(2, d.Level() + 1);
    PowPositive(2, d.Level() + 1);
    PowPositive(2, d.Level() - 1);
    assert 2 * d.HalfUp() == p && (2 * d'.HalfDown() == p || 4 * d'.HalfDown() == p);
    Steps(d.Mantissa(), d'.Mantissa(), p);
  }

  lemma Steps(m: nat, m': nat, p: nat)
    requires m < m' && p > 0
    ensures m' * p >= m * p + p
    ensures m' * p == m * p + p ==> m' == m + 1
  {
    MulMono(p, m + 1, m');
    MulAddOne(p, m);
    if m + 1 < m' {
      MulMono(p, m + 2, m');
      MulAddOne(p, m + 1);
    }
  }

  /** Neighbouring doubles are as far apart as HalfUp and HalfDown say, and alternate in parity. */
  lemma Neighbours(d: Double, d': Double)
    requires d.f < TWO52 && d'.f < TWO52 && d != d'
    ensures d'.Units() >= d.Units() + 2 * d.HalfUp() || d'.Units() <= d.Units() - 2 * d.HalfDown()
    ensures d.Even() && d'.Units() == d.Units() + 2 * d.HalfUp() ==> !d'.Even()
    ensures d.Even() && d'.Units() == d.Units() - 2 * d.HalfDown() ==> !d'.Even()
  {
    PowPositive(2, d.Level());
    PowPositive(2, d.Level() - 1);
    if d.Level() < d'.Level() {
      HigherLevel(d, d');
    } else if d'.Level() < d.Level() {
      HigherLevel(d', d);
    } else if d.Mantissa() < d'.Mantissa() {
      SameLevel(d, d');
    } else {
      SameLevel(d', d);
    }
  }

  /** The neighbours themselves. */
  function Next(d: Double): Double {
    if d.f + 1 < TWO52 then Double(d.e, d.f + 1) else Double(d.e + 1, 0)
  }

  function Prev(d: Double): Double
    requires d.Mantissa() > 0
  {
    if d.f > 0 then Double(d.e, d.f - 1) else Double(d.e - 1, TWO52 - 1)
  }

  lemma NextUnits(d: Double)
    requires d.Valid()
    ensures Next(d).Candidate() && Next(d) != d
    ensures Next(d).Units() == d.Units() + 2 * d.HalfUp()
    ensures Next(d).Even() != d.Even()
  {
    if d.f + 1 < TWO52 || d.e == 0 {
      NextMantissa(d);
    } else {
      NextLevel(d);
    }
  }

  /** The units on a level. */
  lemma UnitsOn(d: Double, level: nat)
    requires d.Level() == level
    ensures d.Units() == d.Mantissa() * (2 * Pow(2, level)) && d.HalfUp() == Pow(2, level)
  {
  }

  lemma NextMantissa(d: Double)
    requires d.Valid() && (d.f + 1 < TWO52 || d.e == 0)
    ensures Next(d).Units() == d.Units() + 2 * d.HalfUp()
  {
    UnitsOn(d, d.Level());
    UnitsOn(Next(d), d.Level());
    assert Next(d).Mantissa() == d.Mantissa() + 1;
    hide Pow, Double.Units, Double.HalfUp, Double.Mantissa, Double.Level;
    OneMore(d.Mantissa(), 2 * Pow(2, d.Level()));
  }

  lemma OneMore(m: nat, p: nat)
    ensures (m + 1) * p == m * p + p
  {
  }

  lemma NextLevel(d: Double)
    requires d.Valid() && d.f + 1 == TWO52 && d.e > 0
    ensures Next(d).Units() == d.Units() + 2 * d.HalfUp()
  {
    UnitsOn(d, d.Level());
    UnitsOn(Next(d), d.Level() + 1);
    PowTwo(d.Level());
    hide Pow, Double.Units, Double.HalfUp;
    PowerAbove(Pow(2, d.Level()));
  }

  lemma PowerAbove(p: nat)
    ensures TWO52 * (2 * (2 * p)) == (2 * TWO52 - 1) * (2 * p) + 2 * p
  {
  }

  lemma PrevUnits(d: Double)
    requires d.Valid() && d.Mantissa() > 0
    ensures Prev(d).Valid() && Prev(d) != d
    ensures Prev(d).Units() == d.Units() - 2 * d.HalfDown()
    ensures Prev(d).Even() != d.Even()
  {
    if d.f > 0 || d.e == 1 {
      PrevMantissa(d);
    } else {
      PrevLevel(d);
    }
  }

  lemma PrevMantissa(d: Double)
    requires d.Valid() && d.Mantissa() > 0 && (d.f > 0 || d.e == 1)
    ensures Prev(d).Units() == d.Units() - 2 * d.HalfDown()
  {
    UnitsOn(d, d.Level());
    UnitsOn(Prev(d), d.Level());
    assert Prev(d).Mantissa() == d.Mantissa() - 1 && d.HalfDown() == d.HalfUp();
    hide Pow, Double.Units, Double.HalfUp, Double.HalfDown;
    OneLess(d.Mantissa(), 2 * Pow(2, d.Level()));
  }

  lemma PrevLevel(d: Double)
    requires d.Valid() && d.f == 0 && d.e >= 2
    ensures Prev(d).Units() == d.Units() - 2 * d.HalfDown()
  {
    var p := Pow(2, d.Level() - 1);
    UnitsOn(d, d.Level());
    UnitsOn(Prev(d), d.Level() - 1);
    PowTwo(d.Level() - 1);
    assert d.HalfDown() == p;
    hide Pow, Double.Units, Double.HalfUp, Double.HalfDown;
    PowerBelow(2 * p);
  }

  lemma PowTwo(n: nat)
    ensures Pow(2, n + 1) == 2 * Pow(2, n)
  {
  }

  lemma OneLess(m: nat, p: nat)
    requires m > 0
    ensures (m - 1) * p == m * p - p
  {
  }

  lemma PowerBelow(p: nat)
    ensures (2 * TWO52 - 1) * p == TWO52 * (2 * p) - p
  {
  }

  /** The next double down is closer than the next one up exactly at a power of two above the least normal. */
  lemma GapBelowNarrow(d: Double)
    requires d.Valid() && d.Mantissa() > 0
    ensures d.Units() - Prev(d).Units() < Next(d).Units() - d.Units() <==> d.f == 0 && d.e >= 2
    ensures !(d.f == 0 && d.e >= 2) ==> d.Units() - Prev(d).Units() == Next(d).Units() - d.Units()
  {
    NextUnits(d);
    PrevUnits(d);
    HalvesDiffer(d);
    hide Double.Units, Double.HalfUp, Double.HalfDown, Double.Mantissa, Double.Valid, Next, Prev;
  }

  lemma HalvesDiffer(d: Double)
    ensures if d.f == 0 && d.e >= 2 then d.HalfDown() < d.HalfUp() else d.HalfDown() == d.HalfUp()
  {
    PowPositive(2, d.Level() - 1);
    PowTwo(d.Level() - 1);
  }
}
