/** Multi-word natural numbers (the `_Bigint` of mprec.h) and their in-place quotient. */
module Bigints {
  import opened Powers

  const HALF := 0x1_0000
  const BASE := 0x1_0000_0000

  /** `unsigned long` and `long` on the 32-bit target. */
  type Word = n: nat | n < 0x1_0000_0000
  type Long = n: int | -0x8000_0000 <= n < 0x8000_0000

  /** The number that little-endian words denote. */
  function Val(s: seq<Word>): nat {
    if |s| == 0 then 0 else Val(s[..|s| - 1]) + s[|s| - 1] * Pow(BASE, |s| - 1)
  }

  lemma {:induction false} ValBound(s: seq<Word>)
    ensures Val(s) < Pow(BASE, |s|)
  {
    if |s| > 0 {
      ValBound(s[..|s| - 1]);
      var p := Pow(BASE, |s| - 1);
      MulMono(p, s[|s| - 1] as int + 1, BASE);
      MulAddOne(p, s[|s| - 1]);
    }
  }

  lemma ValExtend(s: seq<Word>, i: nat)
    requires i < |s|
    ensures Val(s[..i + 1]) == Val(s[..i]) + s[i] * Pow(BASE, i)
  {
    assert s[..i + 1][..i] == s[..i];
  }

  lemma ValAppend(s: seq<Word>, t: seq<Word>, w: Word)
    requires s == t + [w]
    ensures Val(s) == Val(t) + w * Pow(BASE, |t|)
  {
    assert s[..|s| - 1] == t;
  }

  lemma ValTrim(s: seq<Word>, i: nat)
    requires i < |s| && s[i] == 0
    ensures Val(s[..i + 1]) == Val(s[..i])
  {
    ValExtend(s, i);
  }

  class Bigint {
    var wds: nat
    const x: array<Word>

    /** Only the first `wds` words count; zero may be written with one word or none. */
    predicate Valid()
      reads this, x
    {
      && 0 < x.Length && wds <= x.Length
      && (wds > 1 ==> x[wds - 1] != 0)
      && (wds == 0 ==> x[0] == 0)
    }

    function Value(): nat
      requires wds <= x.Length
      reads this, x
    {
      Val(x[..wds])
    }

    /** Room for n words, none of them in use or cleared. */
    constructor Balloc(n: nat)
      requires n > 0
      ensures fresh(x) && x.Length == n && wds == 0
    {
      wds := 0;
      x := new Word[n];
    }
  }

  // One word of b - q * S: halves are multiplied and subtracted separately, the
  // multiplication carries upwards and the subtraction borrows with a sign.

  lemma HalfProducts(si: Word, q: nat)
    ensures si * q == (si / HALF) * q * HALF + (si % HALF) * q
  {
    var h, l := si / HALF, si % HALF;
    assert si == h * HALF + l;
    MulDistribute(q, h * HALF, l);
    MulDistribute3(h, HALF, q);
  }

  lemma MulDistribute(c: int, x: int, y: int)
    ensures c * (x + y) == c * x + c * y
  {
  }

  lemma MulDistribute3(a: int, b: int, c: int)
    ensures c * (a * b) == a * c * b
  {
  }

  /** What one step leaves: the word stored, and what it owes to the next one. */
  lemma WordStep(w: Word, si: Word, q: nat, carry: nat, borrow: int,
                 ys: nat, zs: nat, y: int, z: int)
    requires q <= 9 && carry <= 9 && -1 <= borrow <= 0
    requires ys == (si % HALF) * q + carry
    requires zs == (si / HALF) * q + ys / HALF
    requires y == w % HALF - ys % HALF + borrow
    requires z == w / HALF - zs % HALF + y / HALF
    ensures ys < BASE && zs < BASE && zs / HALF <= 9
    ensures -1 <= y / HALF <= 0 && -1 <= z / HALF <= 0
    ensures 0 <= (z % HALF) * HALF + y % HALF < BASE
    ensures (z % HALF) * HALF + y % HALF + (z / HALF - zs / HALF) * BASE
         == w - si * q - carry + borrow
  {
    HalfProducts(si, q);
    MulMono(si % HALF, q, 9);
    MulMono(si / HALF, q, 9);
  }

  /** One word of the subtraction, in the 32-bit types of the source. */
  method SubtractWord(w: Word, si: Word, q: Word, carry0: Word, borrow0: Long)
    returns (stored: Word, carry: Word, borrow: Long)
    requires q <= 9 && carry0 <= 9 && -1 <= borrow0 <= 0
    ensures carry <= 9 && -1 <= borrow <= 0
    ensures stored + (borrow - carry) * BASE == w - si * q - carry0 + borrow0
  {
    MulMono(si % HALF, q, 9);
    MulMono(si / HALF, q, 9);
    var ys: Word := (si % HALF) * q + carry0;
    var zs: Word := (si / HALF) * q + ys / HALF;
    carry := zs / HALF;
    var y: Long := w % HALF - ys % HALF + borrow0;
    borrow := y / HALF;
    var z: Long := w / HALF - zs % HALF + borrow;
    borrow := z / HALF;
    stored := (z % HALF) * HALF + y % HALF;
    WordStep(w, si, q, carry0, borrow0, ys, zs, y, z);
  }

  /** The first i words of `now` are those of was - q * S, except for what is still owed. */
  ghost predicate Subtracted(was: seq<Word>, ss: seq<Word>, now: seq<Word>, q: nat, owed: int, i: nat) {
    && |now| == |was| && i <= |was| && i <= |ss|
    && now[i..] == was[i..]
    && Val(was[..i]) - q * Val(ss[..i]) == Val(now[..i]) + owed * Pow(BASE, i)
  }

  lemma SubtractedStep(was: seq<Word>, ss: seq<Word>, now: seq<Word>, q: nat, carry0: nat, borrow0: int,
                       i: nat, stored: Word, carry: nat, borrow: int)
    requires Subtracted(was, ss, now, q, borrow0 - carry0, i) && i < |was| && i < |ss|
    requires stored + (borrow - carry) * BASE == was[i] - ss[i] * q - carry0 + borrow0
    ensures Subtracted(was, ss, now[i := stored], q, borrow - carry, i + 1)
  {
    var next := now[i := stored];
    assert next[i + 1..] == now[i..][1..] && was[i + 1..] == was[i..][1..];
    assert next[..i] == now[..i];
    ValExtend(was, i);
    ValExtend(ss, i);
    ValExtend(next, i);
    StepSum(Pow(BASE, i), was[i], ss[i], q, carry0, borrow0, stored, carry, borrow,
            Val(was[..i]), Val(ss[..i]), Val(now[..i]));
  }

  lemma SubtractedAll(was: seq<Word>, ss: seq<Word>, now: seq<Word>, q: nat, owed: int, m: nat)
    requires Subtracted(was, ss, now, q, owed, m) && owed <= 0
    requires q * Val(ss[..m]) <= Val(was[..m])
    ensures Val(now[..m]) == Val(was[..m]) - q * Val(ss[..m])
  {
    ValBound(now[..m]);
    NothingOwed(Pow(BASE, m), owed, Val(now[..m]), Val(was[..m]), q * Val(ss[..m]));
  }

  /** Words [0, m) of bx become their value less q times that of sx. */
  method SubtractMultiple(bx: array<Word>, sx: array<Word>, m: nat, q: Word)
    requires bx != sx && m <= bx.Length && m <= sx.Length && q <= 9
    requires q * Val(sx[..m]) <= Val(bx[..m])
    modifies bx
    ensures Val(bx[..m]) == old(Val(bx[..m])) - q * Val(sx[..m])
    ensures bx[m..] == old(bx[m..])
  {
    var borrow: Long, carry: Word := 0, 0;
    var i := 0;
    ghost var was, ss := bx[..], sx[..];
    while i < m
      invariant 0 <= i <= m
      invariant carry <= 9 && -1 <= borrow <= 0
      invariant Subtracted(was, ss, bx[..], q, borrow - carry, i)
    {
      ghost var now, c0, d0 := bx[..], carry, borrow;
      assert bx[i] == now[i..][0] == was[i..][0] == was[i];
      var stored;
      stored, carry, borrow := SubtractWord(bx[i], sx[i], q, carry, borrow);
      SubtractedStep(was, ss, now, q, c0, d0, i, stored, carry, borrow);
      bx[i] := stored;
      assert bx[..] == now[i := stored];
      i := i + 1;
    }
    SubtractedAll(was, ss, bx[..], q, borrow - carry, m);
    assert was[..m] == old(bx[..m]) && ss[..m] == sx[..m] && bx[..][..m] == bx[..m];
    assert was[m..] == old(bx[m..]) && bx[..][m..] == bx[m..];
  }

  lemma StepSum(p: nat, w: Word, si: Word, q: nat, c0: nat, d0: int, stored: Word, c1: nat, d1: int,
                was: nat, s: nat, now: nat)
    requires was - q * s == now + (d0 - c0) * p
    requires stored + (d1 - c1) * BASE == w - si * q - c0 + d0
    ensures (was + w * p) - q * (s + si * p) == (now + stored * p) + (d1 - c1) * (BASE * p)
  {
    MulDistribute(q, s, si * p);
    MulDistribute3(si, p, q);
    MulAssoc(d1 - c1, BASE, p);
    MulAssoc(si, q, p);
    MulAssoc(q, si, p);
    MulDistribute(p, stored, (d1 - c1) * BASE);
    MulDistribute(p, w - si * q, d0 - c0);
    MulDistribute(p, w, -(si * q));
  }

  lemma NothingOwed(p: nat, owed: int, now: nat, was: nat, taken: nat)
    requires owed <= 0 && now < p && taken <= was && was - taken == now + owed * p
    ensures was - taken == now
  {
    if owed < 0 {
      MulMono(p, owed, -1);
    }
  }

  // The one-word quotient estimate.

  lemma TopWord(s: seq<Word>)
    requires |s| > 0
    ensures s[|s| - 1] * Pow(BASE, |s| - 1) <= Val(s) < (s[|s| - 1] + 1) * Pow(BASE, |s| - 1)
  {
    ValBound(s[..|s| - 1]);
    MulAddOne(Pow(BASE, |s| - 1), s[|s| - 1]);
  }

  /** The quotient digit guessed from the two top words. */
  function EstimateFrom(bt: Word, st: Word): nat {
    bt / (st as int + 1)
  }

  /** q = top(b) / (top(S) + 1) is never high and at most one low. */
  lemma EstimateQuotient(p: nat, bv: nat, sv: nat, bt: nat, st: nat, q: nat)
    requires p > 0 && st >= 10 && bv < 10 * sv
    requires bt * p <= bv < (bt + 1) * p
    requires st * p <= sv < (st + 1) * p
    requires q == bt / (st + 1)
    ensures q <= 9
    ensures q * sv <= bv < (q + 2) * sv
  {
    var r := bt % (st + 1);
    assert bt == q * (st + 1) + r;
    EstimateLow(p, bv, sv, bt, st, q);
    TooManyTens(bv, sv, q);
    EstimateHigh(p, bv, sv, bt, st, q, r);
  }

  /** q * S <= q * (st + 1) * p <= bt * p <= b. */
  lemma EstimateLow(p: nat, bv: nat, sv: nat, bt: nat, st: nat, q: nat)
    requires bt * p <= bv && sv <= (st + 1) * p && q * (st + 1) <= bt
    ensures q * sv <= bv
  {
    MulMono(q, sv, (st + 1) * p);
    MulAssoc(q, st + 1, p);
    MulMono(p, q * (st + 1), bt);
  }

  lemma TooManyTens(bv: nat, sv: nat, q: nat)
    requires q * sv <= bv < 10 * sv
    ensures q <= 9
  {
    if q >= 10 {
      MulMono(sv, 10, q);
    }
  }

  /** b < (q * st + q + st + 1) * p <= (q + 2) * st * p <= (q + 2) * S. */
  lemma EstimateHigh(p: nat, bv: nat, sv: nat, bt: nat, st: nat, q: nat, r: nat)
    requires bv < (bt + 1) * p && st * p <= sv && st >= 10 && q <= 9
    requires bt == q * (st + 1) + r && r <= st
    ensures bv < (q + 2) * sv
  {
    MulAddOne(q, st);
    MulTwoMore(q, st);
    MulMono(p, bt + 1, (q + 2) * st);
    MulMono(q + 2, st * p, sv);
    MulAssoc(q + 2, st, p);
  }

  lemma MulAssoc(a: int, b: int, c: int)
    ensures a * (b * c) == a * b * c
  {
  }

  /** Fewer significant words mean a smaller number. */
  lemma FewerWords(a: seq<Word>, b: seq<Word>)
    requires |a| < |b| && b[|b| - 1] != 0
    ensures Val(a) < Val(b)
  {
    ValBound(a);
    PowMonotone(BASE, |a|, |b| - 1);
    TopNonzero(b);
  }

  lemma TopNonzero(s: seq<Word>)
    requires |s| > 0 && s[|s| - 1] != 0
    ensures Pow(BASE, |s| - 1) <= Val(s)
  {
    MulMono(Pow(BASE, |s| - 1), 1, s[|s| - 1]);
  }

  lemma {:induction false} DecidedAbove(a: seq<Word>, b: seq<Word>, i: nat)
    requires |a| == |b| && i < |a| && a[i + 1..] == b[i + 1..] && a[i] < b[i]
    ensures Val(a) < Val(b)
    decreases |a|
  {
    var l := |a| - 1;
    if i < l {
      assert a[i + 1..][l - i - 1] == a[l] && b[i + 1..][l - i - 1] == b[l];
      assert a[..l][i + 1..] == a[i + 1..][..l - i - 1];
      assert b[..l][i + 1..] == b[i + 1..][..l - i - 1];
      DecidedAbove(a[..l], b[..l], i);
    } else {
      ValBound(a[..l]);
      MulMono(Pow(BASE, l), a[l] as int + 1, b[l]);
      MulAddOne(Pow(BASE, l), a[l]);
    }
  }

  lemma ZeroIsShort(b: Bigint)
    requires b.Valid() && b.Value() == 0
    ensures b.wds <= 1
  {
    if b.wds > 1 {
      TopNonzero(b.x[..b.wds]);
      PowPositive(BASE, b.wds - 1);
    }
  }

  lemma WordCountDecides(a: Bigint, b: Bigint)
    requires a.Valid() && b.Valid() && a.wds < b.wds
    ensures a.Value() < b.Value() || a.Value() == b.Value() == 0
  {
    var av, bv := a.x[..a.wds], b.x[..b.wds];
    if b.wds == 1 && bv[0] == 0 {
      assert bv[..0] == [];
    } else {
      FewerWords(av, bv);
    }
  }

  /** Orders by word count first, so zero written with no word sorts below zero written with one. */
  method Cmp(a: Bigint, b: Bigint) returns (r: int)
    requires a.Valid() && b.Valid() && (a.wds > 0 || b.wds > 0)
    ensures a.Value() > 0 || b.Value() > 0 ==> (r < 0 <==> a.Value() < b.Value())
    ensures a.Value() > 0 || b.Value() > 0 ==> (r == 0 <==> a.Value() == b.Value())
    ensures a.Value() == 0 == b.Value() ==> r == a.wds - b.wds
  {
    ghost var av, bv := a.x[..a.wds], b.x[..b.wds];
    var i, j := a.wds, b.wds;
    if i != j {
      if i < j {
        WordCountDecides(a, b);
      } else {
        WordCountDecides(b, a);
      }
      return i - j;
    }
    while j > 0
      invariant 0 <= j <= i
      invariant av[j..] == bv[j..]
    {
      j := j - 1;
      if a.x[j] != b.x[j] {
        if a.x[j] < b.x[j] {
          DecidedAbove(av, bv, j);
          return -1;
        }
        DecidedAbove(bv, av, j);
        return 1;
      }
      assert av[j..] == [av[j]] + av[j + 1..] && bv[j..] == [bv[j]] + bv[j + 1..];
    }
    assert av == av[0..] == bv[0..] == bv;
    return 0;
  }

  /** Word n is zero: drop it and every zero word under it except word 0. */
  method TrimTop(b: Bigint, top: nat)
    requires top < b.x.Length && b.x[top] == 0
    modifies b`wds
    ensures b.Valid() && b.Value() == Val(b.x[..top + 1])
    ensures b.wds <= top
  {
    var n, bxe := top, top - 1;
    ghost var xs := b.x[..];
    ValTrim(xs, top);
    assert xs[..top + 1] == b.x[..top + 1];
    while bxe > 0 && b.x[bxe] == 0
      invariant bxe == n - 1 && 0 <= n <= top && (n == 0 ==> top == 0)
      invariant b.x[..] == xs && Val(xs[..n]) == Val(xs[..top + 1])
    {
      ValTrim(xs, n - 1);
      n := n - 1;
      bxe := bxe - 1;
    }
    b.wds := n;
    assert xs[..n] == b.x[..n];
  }

  /** S as `_dtoa_r` aligns it: four leading zero bits in the top word. */
  predicate Aligned(S: Bigint)
    reads S, S.x
  {
    S.Valid() && S.wds > 0 && 0x800_0000 <= S.x[S.wds - 1] < 0x1000_0000
  }

  lemma NotOversize(b: seq<Word>, s: seq<Word>)
    requires |s| > 0 && s[|s| - 1] < 0x1000_0000
    requires |b| > |s| ==> b[|b| - 1] != 0
    requires Val(b) < 10 * Val(s)
    ensures |b| <= |s|
  {
    if |b| > |s| {
      TenTimesFits(s);
      TopNonzero(b);
      PowMonotone(BASE, |s|, |b| - 1);
    }
  }

  lemma TenTimesFits(s: seq<Word>)
    requires |s| > 0 && s[|s| - 1] < 0x1000_0000
    ensures 10 * Val(s) < Pow(BASE, |s|)
  {
    ValBound(s[..|s| - 1]);
    MulMono(Pow(BASE, |s| - 1), s[|s| - 1] as int + 1, 0x1000_0000);
    MulAddOne(Pow(BASE, |s| - 1), s[|s| - 1]);
  }

  lemma DivideInTwoSteps(b: nat, s: nat, q: nat, b1: nat)
    requires b1 == b - q * s && b1 < 2 * s
    ensures b1 < s ==> Divides(b, s, q, b1)
    ensures b1 >= s ==> Divides(b, s, q + 1, b1 - s)
  {
    MulAddOne(s, q);
  }

  /** b := b - q * S in place, then drop the zero words this left on top. */
  method SubtractAndTrim(b: Bigint, S: Bigint, q: nat)
    requires b.Valid() && Aligned(S) && b != S && b.x != S.x
    requires b.wds == S.wds && q <= 9 && q * S.Value() <= b.Value()
    modifies b`wds, b.x
    ensures b.Valid() && b.Value() == old(b.Value()) - q * S.Value()
    ensures b.wds <= S.wds
  {
    var n := S.wds - 1;
    SubtractMultiple(b.x, S.x, n + 1, q);
    if b.x[n] == 0 {
      TrimTop(b, n);
    }
  }

  /** Divides b by S in place: b becomes the remainder, the quotient is returned. */
  method Quorem(b: Bigint, S: Bigint) returns (q: nat)
    requires b.Valid() && Aligned(S) && b != S && b.x != S.x
    requires b.Value() < 10 * S.Value()
    modifies b`wds, b.x
    ensures b.Valid() && S.Value() > 0
    ensures Divides(old(b.Value()), S.Value(), q, b.Value())
    ensures q <= 9
  {
    hide Val, Pow, EstimateFrom;
    ghost var bv, sv := b.Value(), S.Value();
    AlignedPositive(S, b);
    if b.wds < S.wds {
      return 0;
    }
    q := EstimateFrom(b.x[S.wds - 1], S.x[S.wds - 1]);
    Estimate(b.x[..b.wds], S.x[..S.wds], q);
    if q != 0 {
      SubtractAndTrim(b, S, q);
    }
    DivideInTwoSteps(bv, sv, q, b.Value());
    var more := SubtractOnce(b, S);
    q := q + more;
    TooManyTens(bv, sv, q);
  }

  /** The estimate may be one low: take S away once more if it still fits. */
  method SubtractOnce(b: Bigint, S: Bigint) returns (more: nat)
    requires b.Valid() && Aligned(S) && b != S && b.x != S.x
    requires b.wds <= S.wds
    modifies b`wds, b.x
    ensures b.Valid()
    ensures more == if old(b.Value()) < S.Value() then 0 else 1
    ensures more == 1 ==> old(b.wds) == S.wds  // no word of b had been trimmed
    ensures b.Value() == if old(b.Value()) < S.Value() then old(b.Value()) else old(b.Value()) - S.Value()
  {
    more := 0;
    AlignedPositive(S, b);
    var c := Cmp(b, S);
    if c >= 0 {
      more := 1;
      SubtractAndTrim(b, S, 1);
    }
  }

  lemma AlignedPositive(S: Bigint, b: Bigint)
    requires Aligned(S) && b.Valid()
    ensures S.Value() > 0
    ensures b.wds < S.wds ==> b.Value() < S.Value()
    ensures b.Value() < 10 * S.Value() ==> b.wds <= S.wds
  {
    var bs, ss := b.x[..b.wds], S.x[..S.wds];
    TopNonzero(ss);
    PowPositive(BASE, S.wds - 1);
    if b.wds < S.wds {
      FewerWords(bs, ss);
    }
    if b.Value() < 10 * S.Value() {
      NotOversize(bs, ss);
    }
  }

  lemma Estimate(b: seq<Word>, s: seq<Word>, q: nat)
    requires |b| == |s| > 0 && s[|s| - 1] >= 10
    requires Val(b) < 10 * Val(s)
    requires q == EstimateFrom(b[|b| - 1], s[|s| - 1])
    ensures q <= 9 && q * Val(s) <= Val(b) && Val(b) - q * Val(s) < 2 * Val(s)
  {
    TopWord(b);
    TopWord(s);
    PowPositive(BASE, |s| - 1);
    EstimateQuotient(Pow(BASE, |s| - 1), Val(b), Val(s), b[|b| - 1], s[|s| - 1], q);
    MulTwoMore(q, Val(s));
  }

  lemma MulTwoMore(q: int, s: int)
    ensures (q + 2) * s == q * s + 2 * s
  {
  }
}
