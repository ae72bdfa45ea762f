/** Powers, products and quotients: the few facts the other modules need. */
module Powers {

  function Pow(b: nat, n: nat): nat {
    if n == 0 then 1 else b * Pow(b, n - 1)
  }

  lemma {:induction false} PowAdd(b: nat, m: nat, n: nat)
    ensures Pow(b, m + n) == Pow(b, m) * Pow(b, n)
  {
    if m == 0 {
    } else {
      PowAdd(b, m - 1, n);
      assert b * (Pow(b, m - 1) * Pow(b, n)) == b * Pow(b, m - 1) * Pow(b, n);
    }
  }

  lemma {:induction false} PowPositive(b: nat, n: nat)
    requires b > 0
    ensures Pow(b, n) > 0
  {
    if n > 0 {
      PowPositive(b, n - 1);
    }
  }

  lemma {:induction false} PowMonotone(b: nat, m: nat, n: nat)
    requires b > 0 && m <= n
    ensures Pow(b, m) <= Pow(b, n)
  {
    PowAdd(b, m, n - m);
    PowPositive(b, n - m);
    PowPositive(b, m);
    MulMono(Pow(b, m), 1, Pow(b, n - m));
  }

  lemma MulMono(c: nat, x: int, y: int)
    requires x <= y
    ensures c * x <= c * y
  {
  }

  lemma MulAddOne(c: int, y: int)
    ensures c * (y + 1) == c * y + c
  {
  }

  lemma MulCancel(c: nat, x: int, y: int)
    requires c > 0 && c * x <= c * y
    ensures x <= y
  {
    if y < x {
      MulMono(c, y + 1, x);
      MulAddOne(c, y);
    }
  }

  lemma MulCancelStrict(c: nat, x: int, y: int)
    requires c > 0 && c * x < c * y
    ensures x < y
  {
    if y <= x {
      MulMono(c, y, x);
    }
  }

  lemma {:induction false} PowBase(a: nat, b: nat, n: nat)
    ensures Pow(a * b, n) == Pow(a, n) * Pow(b, n)
  {
    if n > 0 {
      PowBase(a, b, n - 1);
      MulSwap(a, b, Pow(a, n - 1), Pow(b, n - 1));
    }
  }

  lemma MulSwap(a: int, b: int, p: int, q: int)
    ensures a * b * (p * q) == (a * p) * (b * q)
  {
  }

  /** b = q * s + r with r < s. */
  ghost predicate Divides(b: nat, s: nat, q: nat, r: nat) {
    b == q * s + r && r < s
  }

  lemma DivisionUnique(b: nat, s: nat, q: nat, r: nat)
    requires Divides(b, s, q, r)
    ensures q == b / s && r == b % s
  {
    DivisionOrder(b, s, q, r, b / s, b % s);
    DivisionOrder(b, s, b / s, b % s, q, r);
  }

  lemma DivisionOrder(b: nat, s: nat, q: nat, r: nat, q': nat, r': nat)
    requires b == q * s + r == q' * s + r' && r < s && r' < s
    ensures q <= q'
  {
    if q' < q {
      MulMono(s, q' + 1, q);
      MulAddOne(s, q');
    }
  }
}
