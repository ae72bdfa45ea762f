/** Steele and White free-format digit generation (modes 0 and 1 of `_dtoa_r`). */
module FreeFormat {
  import opened Powers
  import opened Bigints
  import opened Decimal

  /** The scaled problem: the number b/S in [1, 10), and how far below and above it still rounds to it. */
  datatype Scaled = Scaled(b: nat, S: nat, lo: nat, hi: nat, closed: bool) {
    ghost predicate Ready() {
      S <= b < 10 * S && 0 < lo <= hi
    }
  }

  /** x measured in the units 1/(S * 10^(n-1)) in which n-digit decimals are multiples of S. */
  ghost function At(x: nat, n: nat): nat
    requires n > 0
  {
    x * Pow(10, n - 1)
  }

  /** The n-digit decimal E (one digit before the point) lies in the rounding interval. */
  ghost predicate Inside(p: Scaled, E: int, n: nat)
    requires n > 0
  {
    var (b, lo, hi) := (At(p.b, n), At(p.lo, n), At(p.hi, n));
    if p.closed then b - lo <= E * p.S <= b + hi else b - lo < E * p.S < b + hi
  }

  ghost predicate NoneInside(p: Scaled, n: nat)
    requires n > 0
  {
    forall E: int :: !Inside(p, E, n)
  }

  lemma InsideScale(p: Scaled, E: int, n: nat)
    requires n > 0
    ensures Inside(p, E, n) <==> Inside(p, 10 * E, n + 1)
  {
    AtNext(p.b, n);
    AtNext(p.lo, n);
    AtNext(p.hi, n);
    MulAssoc(10, E, p.S);
  }

  lemma AtNext(x: nat, n: nat)
    requires n > 0
    ensures At(x, n + 1) == 10 * At(x, n)
  {
    Regroup(x, Pow(10, n - 1));
  }

  lemma Regroup(x: int, t: int)
    ensures x * (10 * t) == 10 * (x * t)
  {
  }

  /** With none at n digits there is none at fewer either. */
  lemma {:induction false} NoneAtFewer(p: Scaled, m: nat, n: nat)
    requires 0 < m <= n && NoneInside(p, n)
    ensures NoneInside(p, m)
    decreases n - m
  {
    if m < n {
      NoneAtFewer(p, m + 1, n);
      forall E: int ensures !Inside(p, E, m) {
        InsideScale(p, E, m);
      }
    }
  }

  /** n digits D are out; c is what remains, ten times too large for the next quotient digit. */
  ghost predicate Generated(p: Scaled, n: nat, D: nat, c: nat) {
    && p.Ready()
    && At(p.b, n + 1) == 10 * (D * p.S) + c && c < 10 * p.S
    && (n == 0 ==> D == 0)
    && (n > 0 ==> NoneInside(p, n) && At(p.lo, n) + At(p.hi, n) <= p.S)
  }

  /** `cmp (b, mlo)` allows stopping with the digits so far. */
  ghost predicate LowOk(p: Scaled, n: nat, r: nat) {
    r < At(p.lo, n + 1) || (p.closed && r == At(p.lo, n + 1))
  }

  /** `cmp (b, S - mhi)` allows stopping with the digits so far plus one. */
  ghost predicate HighOk(p: Scaled, n: nat, r: nat) {
    r + At(p.hi, n + 1) > p.S || (p.closed && r + At(p.hi, n + 1) == p.S)
  }

  lemma Splits(p: Scaled, n: nat, D: nat, c: nat, q: nat, r: nat)
    requires Generated(p, n, D, c) && Divides(c, p.S, q, r)
    ensures At(p.b, n + 1) == (10 * D + q) * p.S + r
    ensures At(p.lo, n + 1) > 0 && At(p.hi, n + 1) > 0
  {
    Combine(D, p.S, q);
    PowPositive(10, n);
    MulMono(Pow(10, n), 1, p.lo);
    MulMono(Pow(10, n), 1, p.hi);
  }

  /** What the next quotient digit means. */
  lemma NextDigit(p: Scaled, n: nat, D: nat, c: nat, q: nat, r: nat)
    requires Generated(p, n, D, c) && Divides(c, p.S, q, r)
    ensures Inside(p, 10 * D + q, n + 1) <==> LowOk(p, n, r)
    ensures Inside(p, 10 * D + q + 1, n + 1) <==> HighOk(p, n, r)
  {
    Splits(p, n, D, c, q, r);
    MulAddOne(p.S, 10 * D + q);
  }

  /** Decimals other than the two neighbours are inside only if the nearer neighbour is. */
  lemma OtherDigits(p: Scaled, n: nat, D: nat, c: nat, q: nat, r: nat, E: int)
    requires Generated(p, n, D, c) && Divides(c, p.S, q, r) && Inside(p, E, n + 1)
    ensures E <= 10 * D + q ==> LowOk(p, n, r)
    ensures E >= 10 * D + q + 1 ==> HighOk(p, n, r)
  {
    var F := 10 * D + q;
    Splits(p, n, D, c, q, r);
    Multiples(p.S, E, F);
  }

  /** Multiples of s are at least s apart. */
  lemma Multiples(s: nat, E: int, F: int)
    ensures E <= F ==> E * s <= F * s
    ensures E < F ==> E * s + s <= F * s
    ensures E > F ==> E * s >= F * s + s
    ensures E > F + 1 ==> E * s >= F * s + 2 * s
  {
    if E < F {
      MulMono(s, E + 1, F);
    } else if E > F {
      MulMono(s, F + 1, E);
      if E > F + 1 {
        MulMono(s, F + 2, E);
      }
    }
  }

  lemma Combine(D: int, s: int, q: int)
    ensures 10 * (D * s) + q * s == (10 * D + q) * s
  {
  }

  /** Neither test fires: no (n + 1)-digit decimal is inside, and the loop goes on. */
  lemma KeepGoing(p: Scaled, n: nat, D: nat, c: nat, q: nat, r: nat)
    requires Generated(p, n, D, c) && Divides(c, p.S, q, r)
    requires !LowOk(p, n, r) && !HighOk(p, n, r)
    ensures Generated(p, n + 1, 10 * D + q, 10 * r)
  {
    var m := n + 1;
    forall E: int ensures !Inside(p, E, m) {
      if Inside(p, E, m) {
        OtherDigits(p, n, D, c, q, r, E);
      }
    }
    Splits(p, n, D, c, q, r);
    AtNext(p.b, m);
  }

  /** The first digit is not 0; later, 0 may not be emitted as the last digit nor 9 be rounded up. */
  lemma LastDigit(p: Scaled, n: nat, D: nat, c: nat, q: nat, r: nat)
    requires Generated(p, n, D, c) && Divides(c, p.S, q, r)
    ensures n == 0 ==> q > 0
    ensures q == 0 ==> !LowOk(p, n, r)
    ensures q == 9 && n > 0 ==> !HighOk(p, n, r)
  {
    NextDigit(p, n, D, c, q, r);
    if n > 0 {
      InsideScale(p, D, n);
      InsideScale(p, D + 1, n);
    }
  }

  /** The digits D at n places are a shortest decimal in the interval. */
  ghost predicate Shortest(p: Scaled, D: nat, n: nat)
    requires n > 0
  {
    Inside(p, D, n) && (forall m :: 0 < m < n ==> NoneInside(p, m))
  }

  /** No n-digit decimal in the interval is closer to b/S than D; as close is only a neighbour of an even D. */
  ghost predicate Nearest(p: Scaled, D: nat, n: nat)
    requires n > 0
  {
    forall E: int :: Inside(p, E, n) ==>
      Gap(p, D, n) <= Gap(p, E, n) && (E != D && Gap(p, D, n) == Gap(p, E, n) ==> D % 2 == 0 && D - 1 <= E <= D + 1)
  }

  /** Distance from b/S to the n-digit decimal E, in units of 1/(S * 10^(n-1)). */
  ghost function Gap(p: Scaled, E: int, n: nat): nat
    requires n > 0
  {
    var d := E * p.S - At(p.b, n);
    if d < 0 then -d else d
  }

  lemma StopIsShortest(p: Scaled, n: nat, D: nat, c: nat, E: nat)
    requires Generated(p, n, D, c) && Inside(p, E, n + 1)
    ensures Shortest(p, E, n + 1)
  {
    forall m | 0 < m < n + 1 ensures NoneInside(p, m) {
      NoneAtFewer(p, m, n);
    }
  }

  lemma GapOf(p: Scaled, n: nat, D: nat, c: nat, q: nat, r: nat, E: int)
    requires Generated(p, n, D, c) && Divides(c, p.S, q, r)
    ensures E == 10 * D + q ==> Gap(p, E, n + 1) == r
    ensures E == 10 * D + q + 1 ==> Gap(p, E, n + 1) == p.S - r
    ensures E < 10 * D + q ==> Gap(p, E, n + 1) >= p.S + r
    ensures E > 10 * D + q + 1 ==> Gap(p, E, n + 1) >= p.S + (p.S - r)
  {
    Splits(p, n, D, c, q, r);
    Multiples(p.S, E, 10 * D + q);
    if E == 10 * D + q + 1 {
      MulAddOne(p.S, 10 * D + q);
    }
  }

  lemma EvenSum(D: nat, x: nat)
    requires x % 2 == 0
    ensures (10 * D + x) % 2 == 0
  {
  }

  /** The distances g of the choice and e of another decimal E that is inside, between F and F + 1. */
  lemma Nearer(s: nat, r: nat, F: int, up: nat, E: int, g: nat, e: nat, low: bool, high: bool)
    requires r < s && up <= 1 && (r == 0 ==> low) && g == if up == 0 then r else s - r
    requires up == 0 ==> low && (2 * r <= s || !high)
    requires up == 1 ==> high && (2 * r >= s || !low)
    requires low && high && 2 * r == s ==> (F + up) % 2 == 0
    requires if E <= F then low else high
    requires E == F ==> e == r
    requires E == F + 1 ==> e == s - r
    requires E < F ==> e >= s + r
    requires E > F + 1 ==> e >= s + (s - r)
    ensures g <= e
    ensures E != F + up && g == e ==> (F + up) % 2 == 0 && F + up - 1 <= E <= F + up + 1
  {
  }

  /** Choosing F when it is no farther than F + 1, or F + 1 is not inside; and conversely; and of two equally near
      the even one. */
  lemma ChoiceIsNearest(p: Scaled, n: nat, D: nat, c: nat, q: nat, r: nat, up: nat)
    requires Generated(p, n, D, c) && Divides(c, p.S, q, r) && up <= 1
    requires up == 0 ==> LowOk(p, n, r) && (2 * r <= p.S || !HighOk(p, n, r))
    requires up == 1 ==> HighOk(p, n, r) && (2 * r >= p.S || !LowOk(p, n, r))
    requires LowOk(p, n, r) && HighOk(p, n, r) && 2 * r == p.S ==> (q + up) % 2 == 0
    ensures Nearest(p, 10 * D + q + up, n + 1)
  {
    var m := n + 1;
    var F := 10 * D + q;
    Splits(p, n, D, c, q, r);
    GapOf(p, n, D, c, q, r, F + up);
    var low, high := LowOk(p, n, r), HighOk(p, n, r);
    if (q + up) % 2 == 0 {
      EvenSum(D, q + up);
    }
    assert (q + up) % 2 == 0 ==> (F + up) % 2 == 0;
    hide Inside, Gap, LowOk, HighOk, At;
    forall E: int | Inside(p, E, m)
      ensures Gap(p, F + up, m) <= Gap(p, E, m)
      ensures E != F + up && Gap(p, F + up, m) == Gap(p, E, m) ==> (F + up) % 2 == 0 && F + up - 1 <= E <= F + up + 1
    {
      OtherDigits(p, n, D, c, q, r, E);
      GapOf(p, n, D, c, q, r, E);
      Nearer(p.S, r, F, up, E, Gap(p, F + up, m), Gap(p, E, m), low, high);
    }
  }

  /** With half-gaps alike, b is an even number of them. */
  predicate Spaced(p: Scaled) {
    p.lo == p.hi > 0 ==> p.b % (2 * p.lo) == 0
  }

  /** Then no two neighbours lie on the two ends of the interval. */
  lemma NotOnBothEnds(p: Scaled, n: nat, D: nat, c: nat, q: nat, r: nat)
    requires Generated(p, n, D, c) && Divides(c, p.S, q, r) && Spaced(p)
    ensures !(2 * At(p.lo, n + 1) == 2 * At(p.hi, n + 1) == 2 * r == p.S)
  {
    Splits(p, n, D, c, q, r);
    if 2 * At(p.lo, n + 1) == 2 * At(p.hi, n + 1) == 2 * r == p.S {
      var t, m := Pow(10, n), p.b / (2 * p.lo);
      PowPositive(10, n);
      MulCancel(t, p.lo, p.hi);
      MulCancel(t, p.hi, p.lo);
      assert p.b == m * (2 * p.lo);
      Halves(m, p.lo, t);
      Multiples(p.S, m, 10 * D + q);
    }
  }

  lemma Halves(m: int, lo: int, t: int)
    ensures m * (2 * lo) * t == m * (2 * (lo * t))
  {
  }
}
