/** The multiple-precision operations `_dtoa_r` calls, word by word. */
module Mprec {
  import opened Powers
  import opened Bigints

  /** A number of at least BASE^(n-1) has a nonzero top word. */
  lemma TopFromValue(s: seq<Word>)
    requires |s| > 0 && Val(s) >= Pow(BASE, |s| - 1)
    ensures s[|s| - 1] != 0
  {
    ValBound(s[..|s| - 1]);
  }

  lemma TwoWords(s: seq<Word>)
    requires |s| == 2
    ensures Val(s) == s[0] + s[1] * BASE && Val(s[..1]) == s[0] && Val(s[..0]) == 0
  {
    assert Pow(BASE, 0) == 1 && Pow(BASE, 1) == BASE;
    assert s[..1][..0] == [] && s[..0] == [];
    ValExtend(s, 0);
    ValExtend(s, 1);
    assert s[..2] == s;
  }

  /** `i2b`. */
  method I2b(i: Word) returns (r: Bigint)
    ensures fresh(r) && fresh(r.x) && r.Valid() && r.wds == 1 && r.Value() == i && r.x.Length == 2
  {
    r := new Bigint.Balloc(2);
    r.x[0] := i;
    r.wds := 1;
    TwoWords(r.x[..]);
    assert r.x[..][..1] == r.x[..1];
  }

  // Multiplication by one half-word, in place.

  method MultWord(xi: Word, m: Word, a0: Word) returns (stored: Word, a: Word)
    requires m < HALF && a0 < HALF
    ensures a < HALF && stored + a * BASE == xi * m + a0
  {
    HalfProducts(xi, m);
    ProductBound(xi % HALF, m);
    ProductBound(xi / HALF, m);
    var y: Word := (xi % HALF) * m + a0;
    var z: Word := (xi / HALF) * m + y / HALF;
    a := z / HALF;
    stored := (z % HALF) * HALF + y % HALF;
  }

  /** The first i words of `now` are those of was * m + a, except for the carry. */
  ghost predicate Multiplied(was: seq<Word>, now: seq<Word>, m: nat, a: nat, carry: nat, i: nat) {
    && |now| == |was| && i <= |was| && now[i..] == was[i..]
    && Val(now[..i]) + carry * Pow(BASE, i) == Val(was[..i]) * m + a
  }

  lemma MultipliedStep(was: seq<Word>, now: seq<Word>, m: nat, a: nat, carry: nat, i: nat, stored: Word, carry': nat)
    requires Multiplied(was, now, m, a, carry, i) && i < |was|
    requires stored + carry' * BASE == was[i] * m + carry
    ensures Multiplied(was, now[i := stored], m, a, carry', i + 1)
  {
    var next := now[i := stored];
    assert next[i + 1..] == now[i..][1..] && was[i + 1..] == was[i..][1..];
    assert next[..i] == now[..i];
    ValExtend(was, i);
    ValExtend(next, i);
    MultipliedSum(Pow(BASE, i), Val(was[..i]), Val(now[..i]), was[i], m, a, carry, stored, carry');
  }

  lemma MultipliedSum(p: nat, was: nat, now: nat, w: nat, m: nat, a: nat, carry: nat, stored: nat, carry': nat)
    requires now + carry * p == was * m + a && stored + carry' * BASE == w * m + carry
    ensures (now + stored * p) + carry' * (BASE * p) == (was + w * p) * m + a
  {
    MulDistribute(p, stored, carry' * BASE);
    MulDistribute(p, w * m, carry);
    MulAssoc(carry', BASE, p);
    MulDistribute(m, was, w * p);
    MulAssoc(w, m, p);
    MulAssoc(m, w, p);
  }

  /** x[..n] becomes its value times m plus a; what does not fit is returned. */
  method MultWords(x: array<Word>, n: nat, m: Word, a0: Word) returns (a: Word)
    requires 0 < n <= x.Length && m < HALF && a0 < HALF
    modifies x
    ensures a < HALF && Val(x[..n]) + a * Pow(BASE, n) == old(Val(x[..n])) * m + a0
  {
    hide Val, Pow;
    var i := 0;
    a := a0;
    ghost var was := x[..];
    NothingYet(was, m, a0);
    while true
      invariant 0 <= i < n && a < HALF
      invariant Multiplied(was, x[..], m, a0, a, i)
      decreases n - i
    {
      ghost var now, carry := x[..], a;
      assert x[i] == now[i..][0] == was[i..][0] == was[i];
      var stored;
      stored, a := MultWord(x[i], m, a);
      MultipliedStep(was, now, m, a0, carry, i, stored, a);
      x[i] := stored;
      assert x[..] == now[i := stored];
      i := i + 1;
      if i >= n {
        break;
      }
    }
    assert was[..n] == old(x[..n]) && x[..][..n] == x[..n];
  }

  lemma NothingYet(was: seq<Word>, m: nat, a: nat)
    ensures Multiplied(was, was, m, a, a, 0)
  {
    assert was[..0] == [] && Pow(BASE, 0) == 1;
  }

  lemma ZeroTimes(w: Word, carry: nat, m: nat)
    requires Val([w]) + carry * Pow(BASE, 1) == 0 * m + 0
    ensures w == 0 && carry == 0
  {
    assert [w][..0] == [] && Pow(BASE, 0) == 1 && Pow(BASE, 1) == BASE;
  }

  lemma ProductTop(s: seq<Word>, v: nat, m: nat, a: nat)
    requires |s| > 0 && m > 0 && Val(s) == v * m + a && v >= Pow(BASE, |s| - 1)
    ensures s[|s| - 1] != 0
  {
    MulMono(v, 1, m);
    TopFromValue(s);
  }

  lemma FitsIn(b: Bigint)
    requires b.wds <= b.x.Length
    ensures b.Value() < Pow(BASE, b.x.Length)
  {
    ValBound(b.x[..b.wds]);
    PowMonotone(BASE, b.wds, b.x.Length);
  }

  lemma TooLarge(low: nat, a: nat, p: nat)
    requires a > 0
    ensures low + a * p >= p
  {
    MulMono(p, 1, a);
  }

  /** b * m + a, in b itself if the array holds it, otherwise in a copy of twice the size. */
  method MultAdd(b: Bigint, m: Word, a0: Word) returns (r: Bigint)
    requires b.Valid() && 0 < m < HALF && a0 < HALF && (b.wds == 0 ==> a0 == 0)
    modifies b`wds, b.x
    ensures r == b || (fresh(r) && fresh(r.x))
    ensures r.Valid() && r.Value() == old(b.Value()) * m + a0
    ensures r.wds > 0 <==> old(b.wds) > 0
    ensures r == b <==> old(b.Value()) * m + a0 < Pow(BASE, b.x.Length)
    ensures r.x.Length == if r == b then b.x.Length else 2 * b.x.Length
  {
    hide Val, Pow;
    var wds := b.wds;
    ghost var v := b.Value();
    var n := if wds == 0 then 1 else wds;  // the loop runs once even for no word
    TopWords(b);
    var a := MultWords(b.x, n, m, a0);
    r := b;
    if wds == 0 {
      assert b.x[..1] == [b.x[0]];
      ZeroTimes(b.x[0], a, m);
      assert b.x[..0] == [];
      EmptyIsZero();
    } else if a != 0 {
      r := Grow(b);
      ghost var low := r.x[..wds];
      r.x[wds] := a;
      r.wds := wds + 1;
      assert r.x[..wds + 1] == low + [a];
      ValAppend(r.x[..wds + 1], low, a);
      TooLarge(Val(low), a, Pow(BASE, wds));
    } else if wds > 1 {
      NoCarry(Pow(BASE, wds));
      ProductTop(b.x[..wds], v, m, a0);
    } else {
      NoCarry(Pow(BASE, wds));
    }
    FitsIn(r);
  }

  lemma NoCarry(p: nat)
    ensures 0 * p == 0
  {
  }

  lemma EmptyIsZero()
    ensures Val([]) == 0
  {
  }

  /** A number with two words or more is that large; one without any word is the zero in word 0. */
  lemma TopWords(b: Bigint)
    requires b.Valid()
    ensures b.wds > 1 ==> b.Value() >= Pow(BASE, b.wds - 1)
    ensures b.wds == 0 ==> b.Value() == 0 && Val(b.x[..1]) == 0
  {
    if b.wds > 1 {
      TopNonzero(b.x[..b.wds]);
    } else if b.wds == 0 {
      assert b.x[..1] == [b.x[0]] && [b.x[0]][..0] == [];
    }
  }

  /** b with room for one word more: b itself, or a copy of twice the size. */
  method Grow(b: Bigint) returns (r: Bigint)
    requires 0 < b.wds <= b.x.Length
    ensures r == b || (fresh(r) && fresh(r.x))
    ensures b.wds < r.x.Length && r.x[..b.wds] == b.x[..b.wds]
    ensures r == b <==> b.wds < b.x.Length
    ensures r.x.Length == if r == b then b.x.Length else 2 * b.x.Length
  {
    r := b;
    if b.wds >= b.x.Length {
      r := new Bigint.Balloc(2 * b.x.Length);
      var i := 0;
      while i < b.wds
        invariant 0 <= i <= b.wds && r.x[..i] == b.x[..i]
      {
        r.x[i] := b.x[i];
        i := i + 1;
      }
    }
  }

  // Schoolbook multiplication, a half-word of the multiplier at a time.

  /** Words j to j+i of `now` have received y times the first i words of xs, except for what is still owed. */
  ghost predicate Added(was: seq<Word>, now: seq<Word>, xs: seq<Word>, y: nat, j: nat, owed: int, i: nat) {
    && |now| == |was| && j + i <= |was| && i <= |xs| && now[j + i..] == was[j + i..]
    && Val(now[..j + i]) + owed * Pow(BASE, j + i) == Val(was[..j + i]) + y * Val(xs[..i]) * Pow(BASE, j)
  }

  lemma AddedStep(was: seq<Word>, now: seq<Word>, xs: seq<Word>, y: nat, j: nat, owed: int, i: nat,
                  stored: Word, owed': int)
    requires Added(was, now, xs, y, j, owed, i) && i < |xs| && j + i < |was|
    requires stored + owed' * BASE == xs[i] * y + was[j + i] + owed
    ensures Added(was, now[j + i := stored], xs, y, j, owed', i + 1)
  {
    var k := j + i;
    var next := now[k := stored];
    assert next[k + 1..] == now[k..][1..] && was[k + 1..] == was[k..][1..];
    assert next[..k] == now[..k];
    ValExtend(was, k);
    ValExtend(next, k);
    ValExtend(xs, i);
    PowAdd(BASE, j, i);
    AddedSum(Pow(BASE, j), Pow(BASE, i), Val(was[..k]), Val(now[..k]), Val(xs[..i]), xs[i], was[k], y,
             owed, stored, owed');
  }

  lemma AddedSum(pj: nat, pi: nat, was: nat, now: nat, x: nat, w: nat, c: nat, y: nat,
                 owed: int, stored: nat, owed': int)
    requires now + owed * (pj * pi) == was + y * x * pj
    requires stored + owed' * BASE == w * y + c + owed
    ensures (now + stored * (pj * pi)) + owed' * (BASE * (pj * pi))
         == (was + c * (pj * pi)) + y * (x + w * pi) * pj
  {
    var q := pj * pi;
    MulDistribute(q, stored, owed' * BASE);
    MulDistribute(q, w * y + c, owed);
    MulDistribute(q, w * y, c);
    MulAssoc(owed', BASE, q);
    Spread(y, x, w, pi, pj);
  }

  lemma Spread(y: int, x: int, w: int, pi: int, pj: int)
    ensures y * (x + w * pi) * pj == y * x * pj + w * y * (pj * pi)
  {
    MulDistribute(y, x, w * pi);
    MulDistribute(pj, y * x, y * (w * pi));
    assert y * (w * pi) * pj == w * y * (pj * pi);
  }

  lemma AddedStart(was: seq<Word>, xs: seq<Word>, y: nat, j: nat)
    requires j <= |was|
    ensures Added(was, was, xs, y, j, 0, 0)
  {
    assert xs[..0] == [];
    NoCarry(Pow(BASE, j));
  }

  lemma AddedEnd(was: seq<Word>, now: seq<Word>, xs: seq<Word>, y: nat, j: nat, owed: int, n: nat, top: Word)
    requires Added(was, now, xs, y, j, owed, n) && j + n < |was|
    requires top == was[j + n] + owed
    ensures var next := now[j + n := top];
            && Val(next[..j + n + 1]) == Val(was[..j + n + 1]) + y * Val(xs[..n]) * Pow(BASE, j)
            && next[j + n + 1..] == was[j + n + 1..]
  {
    hide Val, Pow;
    var k := j + n;
    var next := now[k := top];
    assert next[..k] == now[..k];
    assert next[k + 1..] == now[k..][1..] && was[k + 1..] == was[k..][1..];
    ValExtend(was, k);
    ValExtend(next, k);
    TopSum(Pow(BASE, k), Val(was[..k]), Val(now[..k]), was[k], owed, y * Val(xs[..n]) * Pow(BASE, j));
  }

  lemma TopSum(p: nat, was: nat, now: nat, c: nat, owed: int, added: nat)
    requires now + owed * p == was + added
    ensures now + (c + owed) * p == was + c * p + added
  {
    MulDistribute(p, c, owed);
  }

  /** One step for the low half of a multiplier word. */
  method LowStep(xi: Word, ci: Word, y: Word, carry0: Word) returns (stored: Word, carry: Word)
    requires y < HALF && carry0 < HALF
    ensures carry < HALF && stored + carry * BASE == xi * y + ci + carry0
  {
    HalfProducts(xi, y);
    ProductBound(xi % HALF, y);
    ProductBound(xi / HALF, y);
    var z: Word := (xi % HALF) * y + ci % HALF + carry0;
    carry := z / HALF;
    var z2: Word := (xi / HALF) * y + ci / HALF + carry;
    carry := z2 / HALF;
    stored := (z2 % HALF) * HALF + z % HALF;
  }

  /** Adds y times x, shifted j words, into c; the word above receives the carry. */
  method AddLow(c: array<Word>, x: array<Word>, n: nat, y: Word, j: nat)
    requires c != x && 0 < n <= x.Length && j + n < c.Length && y < HALF && c[j + n] == 0
    modifies c
    ensures Val(c[..j + n + 1]) == old(Val(c[..j + n + 1])) + y * Val(x[..n]) * Pow(BASE, j)
    ensures c[j + n] < HALF && c[j + n + 1..] == old(c[j + n + 1..])
  {
    hide Val, Pow, Added;
    ghost var was, xs := c[..], x[..];
    AddedStart(was, xs, y, j);
    var i, carry: Word := 0, 0;
    while true
      invariant 0 <= i < n && carry < HALF && |was| == c.Length
      invariant Added(was, c[..], xs, y, j, carry, i)
      decreases n - i
    {
      ghost var now, owed := c[..], carry;
      Untouched(was, now, xs, y, j, owed, i);
      var stored;
      stored, carry := LowStep(x[i], c[j + i], y, carry);
      AddedStep(was, now, xs, y, j, owed, i, stored, carry);
      c[j + i] := stored;
      assert c[..] == now[j + i := stored];
      i := i + 1;
      if i >= n {
        break;
      }
    }
    ghost var now := c[..];
    AddedEnd(was, now, xs, y, j, carry, n, carry);
    c[j + n] := carry;
    assert c[..] == now[j + n := carry];
    Prefixes(c, now[j + n := carry], j + n + 1);
    assert was[..j + n + 1] == old(c[..j + n + 1]) && was[j + n + 1..] == old(c[j + n + 1..]);
    assert xs[..n] == x[..n];
  }

  lemma Prefixes(c: array<Word>, s: seq<Word>, k: nat)
    requires c[..] == s && k <= |s|
    ensures s[..k] == c[..k] && s[k..] == c[k..]
  {
  }

  lemma Untouched(was: seq<Word>, now: seq<Word>, xs: seq<Word>, y: nat, j: nat, owed: int, i: nat)
    requires Added(was, now, xs, y, j, owed, i)
    ensures |now| == |was| && forall k :: j + i <= k < |was| ==> now[k] == was[k]
  {
    forall k | j + i <= k < |was| ensures now[k] == was[k] {
      assert now[k] == now[j + i..][k - (j + i)];
    }
  }

  /** One step for the high half: z2 holds, half a word early, what the next word starts from. */
  method HighStep(xi: Word, ci: Word, next: Word, y: Word, carry0: Word, z2: Word)
    returns (stored: Word, carry: Word, z2': Word)
    requires y < HALF && carry0 < HALF && z2 % HALF + carry0 * HALF >= ci % HALF
    ensures carry == z2' / HALF && z2' >= next % HALF
    ensures stored + (z2' - next % HALF) * BASE == xi * (y * HALF) + ci + (z2 % HALF + carry0 * HALF - ci % HALF)
  {
    HalvesShifted(xi, y);
    var h: Word, l: Word := (xi / HALF) * y, (xi % HALF) * y;
    stored, carry, z2' := HighHalves(h, l, ci, next, carry0, z2);
  }

  lemma HalvesShifted(xi: Word, y: nat)
    requires y < HALF
    ensures 0 <= (xi / HALF) * y <= 0xfffe_0001 && 0 <= (xi % HALF) * y <= 0xfffe_0001
    ensures xi * (y * HALF) == ((xi / HALF) * y * HALF + (xi % HALF) * y) * HALF
  {
    HalfProducts(xi, y);
    ProductBound(xi % HALF, y);
    ProductBound(xi / HALF, y);
    MulAssoc(xi, y, HALF);
  }

  lemma ProductBound(a: nat, y: nat)
    requires a < HALF && y < HALF
    ensures 0 <= a * y <= 0xfffe_0001
  {
    BoundedProduct(a, y, HALF - 1);
  }

  lemma BoundedProduct(a: nat, y: nat, c: nat)
    requires a <= c && y <= c
    ensures 0 <= a * y <= c * c
  {
    MulMono(a, y, c);
    MulMono(c, a, c);
  }

  /** The same with both half products at hand. */
  method HighHalves(h: Word, l: Word, ci: Word, next: Word, carry0: Word, z2: Word)
    returns (stored: Word, carry: Word, z2': Word)
    requires h <= 0xfffe_0001 && l <= 0xfffe_0001 && carry0 < HALF
    ensures carry == z2' / HALF && z2' >= next % HALF
    ensures stored + (z2' - next % HALF) * BASE
         == (h * HALF + l) * HALF + ci + (z2 % HALF + carry0 * HALF - ci % HALF)
  {
    var z: Word := l + ci / HALF + carry0;
    stored := (z % HALF) * HALF + z2 % HALF;
    z2' := h + next % HALF + z / HALF;
    carry := z2' / HALF;
    HighSum(h, l, ci, carry0, z, stored, z2 % HALF, z2', next % HALF);
  }

  lemma HighSum(h: nat, l: nat, ci: Word, carry0: nat, z: nat, stored: nat, low: nat, z2: nat, next: nat)
    requires z == l + ci / HALF + carry0 && stored == (z % HALF) * HALF + low && z2 == h + next + z / HALF
    ensures stored + (z2 - next) * BASE == (h * HALF + l) * HALF + ci + (low + carry0 * HALF - ci % HALF)
  {
  }

  /** The same for the high half of a multiplier word, a half-word further up. */
  method AddHigh(c: array<Word>, x: array<Word>, n: nat, y: Word, j: nat)
    requires c != x && 0 < n <= x.Length && j + n < c.Length && y < HALF && c[j + n] < HALF
    modifies c
    ensures Val(c[..j + n + 1]) == old(Val(c[..j + n + 1])) + y * HALF * Val(x[..n]) * Pow(BASE, j)
    ensures c[j + n + 1..] == old(c[j + n + 1..])
  {
    hide Val, Pow, Added;
    ghost var was, xs := c[..], x[..];
    AddedStart(was, xs, y * HALF, j);
    var i, carry: Word := 0, 0;
    var z2: Word := c[j];
    while true
      invariant 0 <= i < n && |was| == c.Length && (if i == 0 then carry == 0 else carry == z2 / HALF)
      invariant z2 % HALF + carry * HALF >= c[j + i] % HALF
      invariant Added(was, c[..], xs, y * HALF, j, z2 % HALF + carry * HALF - c[j + i] % HALF, i)
      decreases n - i
    {
      ghost var now, owed := c[..], z2 % HALF + carry * HALF - c[j + i] % HALF;
      Untouched(was, now, xs, y * HALF, j, owed, i);
      var stored, next := 0, c[j + i + 1];
      stored, carry, z2 := HighStep(x[i], c[j + i], next, y, carry, z2);
      AddedStep(was, now, xs, y * HALF, j, owed, i, stored, z2 - next % HALF);
      c[j + i] := stored;
      assert c[..] == now[j + i := stored];
      i := i + 1;
      if i >= n {
        break;
      }
    }
    ghost var now, owed := c[..], z2 - c[j + n] % HALF;
    Untouched(was, now, xs, y * HALF, j, owed, n);
    AddedEnd(was, now, xs, y * HALF, j, owed, n, z2);
    c[j + n] := z2;
    assert c[..] == now[j + n := z2];
    Prefixes(c, now[j + n := z2], j + n + 1);
    assert was[..j + n + 1] == old(c[..j + n + 1]) && was[j + n + 1..] == old(c[j + n + 1..]);
    assert xs[..n] == x[..n];
  }

  lemma TimesZero(v: nat, p: nat)
    ensures 0 * v * p == 0 && 0 * HALF * v * p == 0
  {
  }

  /** One multiplier word: both halves that are not zero. */
  method AddTimes(c: array<Word>, x: array<Word>, n: nat, w: Word, j: nat)
    requires c != x && 0 < n <= x.Length && j + n < c.Length && c[j + n] == 0
    modifies c
    ensures Val(c[..j + n + 1]) == old(Val(c[..j + n])) + w * Val(x[..n]) * Pow(BASE, j)
    ensures c[j + n + 1..] == old(c[j + n + 1..])
  {
    hide Val, Pow;
    ghost var v, p := Val(x[..n]), Pow(BASE, j);
    TopZero(c, j + n);
    TimesZero(v, p);
    var y: Word := w % HALF;
    if y != 0 {
      AddLow(c, x, n, y, j);
    }
    y := w / HALF;
    if y != 0 {
      AddHigh(c, x, n, y, j);
    }
    BothHalves(w, v, p);
  }

  lemma TopZero(c: array<Word>, k: nat)
    requires k < c.Length && c[k] == 0
    ensures Val(c[..k + 1]) == Val(c[..k])
  {
    assert c[..k + 1] == c[..][..k + 1] && c[..k] == c[..][..k];
    ValTrim(c[..], k);
  }

  lemma BothHalves(w: Word, v: nat, p: nat)
    ensures (w % HALF) * v * p + (w / HALF) * HALF * v * p == w * v * p
  {
    MulDistribute(v, w % HALF, (w / HALF) * HALF);
    MulDistribute(p, (w % HALF) * v, (w / HALF) * HALF * v);
  }

  /** The product so far: Val(c) == Val(a) * Val(b[..j]). */
  method Product(c: array<Word>, a: array<Word>, wa: nat, b: array<Word>, wb: nat)
    requires c != a && c != b && 0 < wa <= a.Length && wb <= b.Length && wa + wb <= c.Length
    requires forall k :: 0 <= k < wa + wb ==> c[k] == 0
    modifies c
    ensures Val(c[..wa + wb]) == Val(a[..wa]) * Val(b[..wb])
  {
    hide Val, Pow;
    var j := 0;
    ghost var av, bs := Val(a[..wa]), b[..];
    AllZero(c[..wa]);
    EmptyIsZero();
    assert bs[..0] == [];
    while j < wb
      invariant 0 <= j <= wb && Val(c[..j + wa]) == av * Val(bs[..j])
      invariant forall k :: j + wa <= k < wa + wb ==> c[k] == 0
    {
      ghost var rest := c[j + wa + 1..];
      AddTimes(c, a, wa, b[j], j);
      assert c[j + wa + 1..] == rest;
      NextWord(bs, j, av);
      assert forall k :: j + wa + 1 <= k < wa + wb ==> c[k] == rest[k - (j + wa + 1)];
      j := j + 1;
    }
    assert bs[..wb] == b[..wb];
  }

  lemma {:induction false} AllZero(s: seq<Word>)
    requires forall k :: 0 <= k < |s| ==> s[k] == 0
    ensures Val(s) == 0
  {
    if |s| > 0 {
      AllZero(s[..|s| - 1]);
    }
  }

  lemma NextWord(bs: seq<Word>, j: nat, av: nat)
    requires j < |bs|
    ensures av * Val(bs[..j]) + bs[j] * av * Pow(BASE, j) == av * Val(bs[..j + 1])
  {
    ValExtend(bs, j);
    MulDistribute(av, Val(bs[..j]), bs[j] * Pow(BASE, j));
    MulDistribute3(bs[j], Pow(BASE, j), av);
  }

  /** Room for `size` words, the first n of them cleared and none counted yet. */
  method Zeroes(size: nat, n: nat) returns (c: Bigint)
    requires 0 < size && n <= size
    ensures fresh(c) && fresh(c.x) && c.x.Length == size && forall k :: 0 <= k < n ==> c.x[k] == 0
  {
    c := new Bigint.Balloc(size);
    var i := 0;
    while i < n
      invariant 0 <= i <= n && forall k :: 0 <= k < i ==> c.x[k] == 0
    {
      c.x[i] := 0;
      i := i + 1;
    }
  }

  /** Counts the first n words but the zeroes on top. */
  method CountWords(c: Bigint, n: nat)
    requires 0 < n <= c.x.Length
    modifies c`wds
    ensures c.Valid() && c.Value() == Val(c.x[..n])
    ensures c.Value() > 0 ==> c.wds > 0
  {
    hide Val;
    ghost var cs := c.x[..];
    var wc := n;
    assert cs[..n] == c.x[..n];
    while wc > 0 && c.x[wc - 1] == 0
      invariant 0 <= wc <= n && Val(cs[..wc]) == Val(cs[..n]) && (wc == 0 ==> cs[0] == 0)
      invariant c.x[..] == cs
    {
      ValTrim(cs, wc - 1);
      wc := wc - 1;
    }
    c.wds := wc;
    assert cs[..wc] == c.x[..wc];
    EmptyIsZero();
    assert cs[..0] == [];
  }

  lemma Commute(a: int, b: int)
    ensures a * b == b * a
  {
  }

  /** a * b. */
  method Mult(a: Bigint, b: Bigint) returns (c: Bigint)
    requires a.Valid() && b.Valid() && a.wds > 0 && b.wds > 0
    ensures fresh(c) && fresh(c.x) && c.Valid() && c.Value() == a.Value() * b.Value()
    ensures c.Value() > 0 ==> c.wds > 0
    ensures c.x.Length > 1
  {
    hide Val, Pow;
    if a.wds < b.wds {
      Commute(a.Value(), b.Value());
      c := LongTimesShort(b, a);
    } else {
      c := LongTimesShort(a, b);
    }
  }

  /** The product in an array of a's size, or twice that. */
  method LongTimesShort(a: Bigint, b: Bigint) returns (c: Bigint)
    requires a.Valid() && b.Valid() && a.wds >= b.wds > 0
    ensures fresh(c) && fresh(c.x) && c.Valid() && c.Value() == a.Value() * b.Value()
    ensures c.Value() > 0 ==> c.wds > 0
    ensures c.x.Length > 1
  {
    hide Val, Pow;
    var wc, size := a.wds + b.wds, a.x.Length;
    if wc > size {
      size := 2 * size;
    }
    c := Zeroes(size, wc);
    Product(c.x, a.x, a.wds, b.x, b.wds);
    CountWords(c, wc);
  }

  // Powers of five.

  lemma FiveTo(i: nat, v: nat)
    requires i < 4
    ensures Pow(5, 0) == 1 && Pow(5, 1) == 5 && Pow(5, 2) == 25 && Pow(5, 3) == 125 && Pow(5, 4) == 625
    ensures v * 1 == v
  {
  }

  /** 5^k as a small power and a power of 625. */
  lemma {:induction false} SplitPower(v: nat, i: nat, k: nat)
    ensures v * Pow(5, i) * Pow(625, k) == v * Pow(5, i + 4 * k)
    ensures Pow(625, 0) == 1
  {
    PowOfPow(k);
    PowAdd(5, i, 4 * k);
    MulAssoc(v, Pow(5, i), Pow(5, 4 * k));
  }

  lemma {:induction false} PowOfPow(k: nat)
    ensures Pow(625, k) == Pow(5, 4 * k)
  {
    if k > 0 {
      PowOfPow(k - 1);
      PowAdd(5, 4, 4 * (k - 1));
      FiveTo(0, 0);
    }
  }

  /** b * p^k with an odd p taken out, and the rest through the square of p. */
  lemma HalvePower(b: nat, p: nat, k: nat)
    requires k > 0
    ensures b * Pow(p, k) == (if k % 2 == 1 then b * p else b) * Pow(p * p, k / 2)
    ensures Pow(p * p, 0) == 1
  {
    var h := k / 2;
    PowBase(p, p, h);
    PowAdd(p, h, h);
    if k % 2 == 1 {
      assert k == h + h + 1;
      MulAssoc(b, p, Pow(p, h + h));
    } else {
      assert k == h + h;
    }
  }

  /** b * 5^k: a small power at once, the rest by repeated squaring of 625. */
  method Pow5Mult(b0: Bigint, k0: nat) returns (b: Bigint)
    requires b0.Valid() && b0.wds > 0 && b0.Value() > 0
    modifies b0`wds, b0.x
    ensures b == b0 || (fresh(b) && fresh(b.x))
    ensures b.Valid() && b.wds > 0 && b.Value() == old(b0.Value()) * Pow(5, k0)
    ensures b0.x.Length > 1 ==> b.x.Length > 1
  {
    hide Val, Pow;
    b := b0;
    ghost var v := b.Value();
    var i, k := k0 % 4, k0 / 4;
    FiveTo(i, v);
    SplitPower(v, i, k);
    PowPositive(5, i);
    MulMono(v, 1, Pow(5, i));
    if i != 0 {
      b := MultAdd(b, [5, 25, 125][i - 1], 0);
    }
    if k > 0 {
      b := TimesPower(b, k);
    }
  }

  method TimesPower(b0: Bigint, k0: nat) returns (b: Bigint)
    requires b0.Valid() && b0.wds > 0 && b0.Value() > 0 && k0 > 0
    ensures fresh(b) && fresh(b.x) && b.Valid() && b.wds > 0 && b.x.Length > 1
    ensures b.Value() == b0.Value() * Pow(625, k0)
  {
    hide Val, Pow;
    var k := k0;
    b := b0;
    var p5 := I2b(625);
    ghost var goal := b0.Value() * Pow(625, k0);
    while true
      invariant k > 0
      invariant b == b0 || (fresh(b) && fresh(b.x) && b.x.Length > 1)
      invariant fresh(p5) && fresh(p5.x)
      invariant Positive(b) && Positive(p5)
      invariant b.Value() * Pow(p5.Value(), k) == goal
      decreases k
    {
      HalvePower(b.Value(), p5.Value(), k);
      if k % 2 == 1 {
        MulMono(b.Value(), 1, p5.Value());
        b := Mult(b, p5);
      }
      k := k / 2;
      if k == 0 {
        break;
      }
      MulMono(p5.Value(), 1, p5.Value());
      p5 := Mult(p5, p5);
    }
  }

  predicate Positive(b: Bigint)
    reads b, b.x
  {
    b.Valid() && b.wds > 0 && b.Value() > 0
  }

  // Left shift.

  lemma WordPowers()
    ensures Pow(2, 27) == 0x800_0000 && Pow(2, 28) == 0x1000_0000
    ensures Pow(2, 31) == 0x8000_0000 && Pow(2, 32) == BASE
  {
    assert Pow(2, 4) == 16 && Pow(2, 3) == 8;
    assert Pow(2, 12) == 4096;
    PowAdd(2, 12, 12);
    PowAdd(2, 24, 4);
    PowAdd(2, 24, 3);
    PowAdd(2, 28, 4);
    PowAdd(2, 28, 3);
  }

  lemma {:induction false} BaseIsPow2(n: nat)
    ensures Pow(BASE, n) == Pow(2, 32 * n)
    decreases n
  {
    if n > 0 {
      BaseIsPow2(n - 1);
      PowAdd(2, 32, 32 * (n - 1));
      WordPowers();
    }
  }

  /** `*x << k | z`, and the bits shifted out: p is 2^k and c is 2^(32-k). */
  method ShiftWord(x: Word, z0: Word, p: nat, c: nat) returns (stored: Word, z: Word)
    requires p * c == BASE && p > 0 && c > 0 && z0 < p
    ensures z < p && stored + z * BASE == x * p + z0
  {
    var hi, lo := x / c, x % c;
    assert x == hi * c + lo;
    ShiftParts(hi, lo, c, p, x);
    MulMono(p, lo + 1, c);
    MulAddOne(p, lo);
    MulCancelStrict(c, hi, p);
    stored, z := lo * p + z0, hi;
  }

  lemma ShiftParts(hi: nat, lo: nat, c: nat, p: nat, x: Word)
    requires x == hi * c + lo && p * c == BASE
    ensures x * p == hi * BASE + lo * p && c * hi < c * p && p * c == BASE
  {
    MulDistribute(p, hi * c, lo);
    MulAssoc(hi, c, p);
  }

  /** Words n to n+i of `now` are the first i words of xs times p, except for the bits still due. */
  ghost predicate Shifted(xs: seq<Word>, now: seq<Word>, n: nat, p: nat, due: nat, i: nat) {
    && n + i <= |now| && i <= |xs|
    && Val(now[..n + i]) + due * Pow(BASE, n + i) == p * Val(xs[..i]) * Pow(BASE, n)
  }

  lemma ShiftedStep(xs: seq<Word>, now: seq<Word>, n: nat, p: nat, due: nat, i: nat, stored: Word, due': nat)
    requires Shifted(xs, now, n, p, due, i) && i < |xs| && n + i < |now|
    requires stored + due' * BASE == xs[i] * p + due
    ensures Shifted(xs, now[n + i := stored], n, p, due', i + 1)
  {
    hide Val, Pow;
    var k := n + i;
    var next := now[k := stored];
    assert next[..k] == now[..k];
    ValExtend(next, k);
    ValExtend(xs, i);
    PowAdd(BASE, n, i);
    NextPower(k);
    AddedSum(Pow(BASE, n), Pow(BASE, i), 0, Val(now[..k]), Val(xs[..i]), xs[i], 0, p, due, stored, due');
  }

  lemma NextPower(k: nat)
    ensures Pow(BASE, k + 1) == BASE * Pow(BASE, k)
  {
  }

  lemma ShiftedStart(xs: seq<Word>, now: seq<Word>, n: nat, p: nat)
    requires n <= |now| && forall k :: 0 <= k < n ==> now[k] == 0
    ensures Shifted(xs, now, n, p, 0, 0)
  {
    AllZero(now[..n]);
    assert xs[..0] == [];
  }

  /** The words of x shifted k < 32 bits into r above its n low words. */
  method ShiftWords(x: array<Word>, wds: nat, r: array<Word>, n: nat, k: nat) returns (z: Word)
    requires x != r && 0 < wds <= x.Length && n + wds < r.Length && k < 32
    requires forall j :: 0 <= j < n ==> r[j] == 0
    modifies r
    ensures k == 0 ==> z == 0
    ensures Val(r[..n + wds]) + z * Pow(BASE, n + wds) == Pow(2, k) * Val(x[..wds]) * Pow(BASE, n)
  {
    hide Val, Pow, Shifted;
    var p, c := Pow(2, k), Pow(2, 32 - k);
    TwoPowers(k);
    z := 0;
    var i := 0;
    ghost var xs := x[..];
    ShiftedStart(xs, r[..], n, p);
    while true
      invariant 0 <= i < wds && z < p
      invariant Shifted(xs, r[..], n, p, z, i)
      decreases wds - i
    {
      ghost var now, due := r[..], z;
      var stored;
      stored, z := ShiftWord(x[i], z, p, c);
      ShiftedStep(xs, now, n, p, due, i, stored, z);
      r[n + i] := stored;
      assert r[..] == now[n + i := stored];
      i := i + 1;
      if i >= wds {
        break;
      }
    }
    ShiftedAll(xs, r[..], n, p, z, wds);
    assert xs[..wds] == x[..wds] && r[..][..n + wds] == r[..n + wds];
  }

  lemma ShiftedAll(xs: seq<Word>, now: seq<Word>, n: nat, p: nat, due: nat, i: nat)
    requires Shifted(xs, now, n, p, due, i)
    ensures Val(now[..n + i]) + due * Pow(BASE, n + i) == p * Val(xs[..i]) * Pow(BASE, n)
  {
  }

  lemma TwoPowers(k: nat)
    requires k < 32
    ensures Pow(2, k) > 0 && Pow(2, 32 - k) > 0 && Pow(2, k) * Pow(2, 32 - k) == BASE
    ensures k == 0 ==> Pow(2, k) == 1
  {
    PowAdd(2, k, 32 - k);
    WordPowers();
    PowPositive(2, k);
    PowPositive(2, 32 - k);
  }

  lemma WholeShift(v: nat, k: nat)
    ensures Pow(2, k % 32) * v * Pow(BASE, k / 32) == v * Pow(2, k)
  {
    BaseIsPow2(k / 32);
    PowAdd(2, k % 32, 32 * (k / 32));
    MulAssoc(v, Pow(2, k % 32), Pow(2, 32 * (k / 32)));
  }

  /** Shifting keeps the top word nonzero. */
  lemma ShiftedTop(s: seq<Word>, v: nat, wds: nat, k: nat)
    requires wds > 0 && |s| == k / 32 + wds && v >= Pow(BASE, wds - 1) && Val(s) == v * Pow(2, k)
    ensures s[|s| - 1] != 0
  {
    hide Val, Pow;
    var n := k / 32;
    WholeShift(v, k);
    PowAdd(BASE, n, wds - 1);
    PowPositive(2, k % 32);
    ShiftedBound(Pow(2, k % 32), v, Pow(BASE, n), Pow(BASE, wds - 1));
    TopFromValue(s);
  }

  lemma ShiftedBound(p: nat, v: nat, pn: nat, pw: nat)
    requires p > 0 && v >= pw
    ensures p * v * pn >= pn * pw
  {
    MulMono(v, 1, p);
    MulMono(pn, pw, p * v);
  }

  lemma AtLeastTop(b: Bigint)
    requires b.Valid() && b.Value() > 0
    ensures b.wds > 0 && b.Value() >= Pow(BASE, b.wds - 1)
  {
    if b.wds > 1 {
      TopNonzero(b.x[..b.wds]);
    } else {
      assert Pow(BASE, 0) == 1 && b.x[..0] == [];
    }
  }

  /** The size doubled until n words fit. */
  method Doubled(size0: nat, n: nat) returns (size: nat)
    requires size0 > 0
    ensures size >= size0 && size >= n
  {
    size := size0;
    while n > size
      invariant size >= size0
    {
      size := 2 * size;
    }
  }

  /** b * 2^k in a new number. A shift of no word still stores two, so it takes room for two. */
  method Lshift(b: Bigint, k: nat) returns (r: Bigint)
    requires b.Valid() && (b.Value() > 0 || k < 32) && (b.wds > 0 || b.x.Length > 1)
    ensures r.x.Length >= b.x.Length
    ensures fresh(r) && fresh(r.x) && r.Valid() && r.Value() == b.Value() * Pow(2, k)
    ensures r.wds > 0 <==> b.wds > 0
  {
    hide Val, Pow;
    TopWords(b);
    var n := k / 32;
    var n1 := n + b.wds + 1;
    var size := Doubled(b.x.Length, n1);
    r := Zeroes(size, n);
    var wds := if b.wds == 0 then 1 else b.wds;  // the loop runs once even for no word
    var z := ShiftWords(b.x, wds, r.x, n, k % 32);
    WholeShift(Val(b.x[..wds]), k);
    ghost var low := r.x[..n + wds];
    if k % 32 != 0 {
      r.x[n + wds] := z;
      if z != 0 {
        n1 := n1 + 1;
      }
    }
    assert r.x[..n + wds] == low;
    r.wds := n1 - 1;
    ShiftResult(b, r, k, wds, z, low);
  }

  lemma ShiftResult(b: Bigint, r: Bigint, k: nat, wds: nat, z: Word, low: seq<Word>)
    requires b.Valid() && (b.Value() > 0 || k < 32) && wds == if b.wds == 0 then 1 else b.wds
    requires var n := k / 32;
             && n + wds < r.x.Length && low == r.x[..n + wds] && (z != 0 ==> r.x[n + wds] == z)
             && r.wds == (if z == 0 then n + b.wds else n + b.wds + 1)
             && Val(low) + z * Pow(BASE, n + wds) == Val(b.x[..wds]) * Pow(2, k)
    ensures r.Valid() && r.Value() == b.Value() * Pow(2, k)
    ensures r.wds > 0 <==> b.wds > 0
  {
    hide Val, Pow;
    var n := k / 32;
    TopWords(b);
    if b.Value() == 0 {
      ZeroIsShort(b);
      PowPositive(BASE, n + wds);
      ZeroShift(low, z, Pow(BASE, n + wds), Pow(2, k));
      assert low == [r.x[0]];
      EmptyIsZero();
      assert r.x[..0] == [];
    } else {
      AtLeastTop(b);
      if z == 0 {
        NoCarry(Pow(BASE, n + wds));
        ShiftedTop(low, b.Value(), wds, k);
      } else {
        assert r.x[..n + wds + 1] == low + [z];
        ValAppend(r.x[..n + wds + 1], low, z);
      }
    }
  }

  lemma ZeroShift(low: seq<Word>, z: Word, p: nat, t: nat)
    requires |low| == 1 && p > 0 && Val(low) + z * p == 0 * t
    ensures z == 0 && low[0] == 0
  {
    assert low[..0] == [] && Pow(BASE, 0) == 1;
    if z > 0 {
      MulMono(p, 1, z);
    }
  }

  // Difference.

  /** One word of a - b, with the borrow of the word below. */
  method DiffWord(w: Word, s: Word, borrow0: Long) returns (stored: Word, borrow: Long)
    requires -1 <= borrow0 <= 0
    ensures -1 <= borrow <= 0 && stored + borrow * BASE == w - s + borrow0
  {
    var y: Long := w % HALF - s % HALF + borrow0;
    borrow := y / HALF;
    var z: Long := w / HALF - s / HALF + borrow;
    borrow := z / HALF;
    stored := (z % HALF) * HALF + y % HALF;
  }

  /** The first i words of `now` are those of xs less v, except for the borrow. */
  ghost predicate Reduced(xs: seq<Word>, v: nat, now: seq<Word>, borrow: int, i: nat) {
    i <= |xs| && i <= |now| && Val(now[..i]) + borrow * Pow(BASE, i) == Val(xs[..i]) - v
  }

  lemma ReducedStep(xs: seq<Word>, v: nat, now: seq<Word>, borrow: int, i: nat, s: Word, stored: Word, borrow': int)
    requires Reduced(xs, v, now, borrow, i) && i < |xs| && i < |now|
    requires stored + borrow' * BASE == xs[i] - s + borrow
    ensures Reduced(xs, v + s * Pow(BASE, i), now[i := stored], borrow', i + 1)
  {
    hide Val, Pow;
    var next := now[i := stored];
    assert next[..i] == now[..i];
    ValExtend(xs, i);
    ValExtend(next, i);
    NextPower(i);
    ReducedSum(Pow(BASE, i), Val(xs[..i]), Val(now[..i]), v, borrow, xs[i], s, stored, borrow');
  }

  lemma ReducedSum(p: nat, x: nat, now: nat, v: nat, borrow: int, w: nat, s: nat, stored: nat, borrow': int)
    requires now + borrow * p == x - v && stored + borrow' * BASE == w - s + borrow
    ensures (now + stored * p) + borrow' * (BASE * p) == (x + w * p) - (v + s * p)
  {
    MulDistribute(p, stored, borrow' * BASE);
    MulDistribute(p, w - s, borrow);
    MulDistribute(p, w, -1 * s);
    MulAssoc(borrow', BASE, p);
  }

  lemma ReducedAll(xs: seq<Word>, v: nat, now: seq<Word>, borrow: int, n: nat)
    requires Reduced(xs, v, now, borrow, n) && borrow <= 0 && v <= Val(xs[..n])
    ensures Val(now[..n]) == Val(xs[..n]) - v
  {
    ValBound(now[..n]);
    MulMono(1, 0, v);
    NothingOwed(Pow(BASE, n), borrow, Val(now[..n]), Val(xs[..n]), v);
  }

  /** a - b for a >= b, word by word while b has words and then on the borrow alone. */
  method DiffWords(c: array<Word>, a: array<Word>, wa: nat, b: array<Word>, wb: nat)
    requires c != a && c != b && 0 < wb <= wa <= a.Length && wb <= b.Length && wa <= c.Length
    requires Val(b[..wb]) <= Val(a[..wa])
    modifies c
    ensures Val(c[..wa]) == Val(a[..wa]) - Val(b[..wb])
  {
    hide Val, Pow, Reduced;
    var borrow: Long, i := 0, 0;
    ghost var xs, bs := a[..], b[..];
    ReducedStart(xs, bs, c[..]);
    while true
      invariant 0 <= i < wb && -1 <= borrow <= 0
      invariant Reduced(xs, Val(bs[..i]), c[..], borrow, i)
      decreases wb - i
    {
      ghost var now, owed := c[..], borrow;
      var stored;
      stored, borrow := DiffWord(a[i], b[i], borrow);
      ReducedStep(xs, Val(bs[..i]), now, owed, i, b[i], stored, borrow);
      ValExtend(bs, i);
      c[i] := stored;
      assert c[..] == now[i := stored];
      i := i + 1;
      if i >= wb {
        break;
      }
    }
    while i < wa
      invariant wb <= i <= wa && -1 <= borrow <= 0
      invariant Reduced(xs, Val(bs[..wb]), c[..], borrow, i)
    {
      ghost var now, owed := c[..], borrow;
      var stored;
      stored, borrow := DiffWord(a[i], 0, borrow);
      ReducedStep(xs, Val(bs[..wb]), now, owed, i, 0, stored, borrow);
      NoCarry(Pow(BASE, i));
      c[i] := stored;
      assert c[..] == now[i := stored];
      i := i + 1;
    }
    assert xs[..wa] == a[..wa] && bs[..wb] == b[..wb];
    ReducedAll(xs, Val(bs[..wb]), c[..], borrow, wa);
    assert c[..][..wa] == c[..wa];
  }

  lemma ReducedStart(xs: seq<Word>, bs: seq<Word>, now: seq<Word>)
    ensures Reduced(xs, Val(bs[..0]), now, 0, 0)
  {
    assert xs[..0] == [] && bs[..0] == [] && now[..0] == [];
  }

  /** |a - b|, and whether a < b. */
  method Diff(a0: Bigint, b0: Bigint) returns (c: Bigint, sign: bool)
    requires a0.Valid() && b0.Valid() && a0.wds > 0 && b0.wds > 0
    ensures fresh(c) && fresh(c.x) && c.Valid() && c.wds > 0
    ensures sign == (a0.Value() < b0.Value())
    ensures c.Value() == if sign then b0.Value() - a0.Value() else a0.Value() - b0.Value()
  {
    hide Val, Pow;
    var i := Cmp(a0, b0);
    if i == 0 {
      c := new Bigint.Balloc(1);
      c.x[0] := 0;
      c.wds := 1;
      AllZero(c.x[..1]);
      return c, false;
    }
    ZeroesAlike(a0, b0);
    var a, b := a0, b0;
    sign := i < 0;
    if sign {
      a, b := b, a;
    }
    MoreWords(a, b);
    c := new Bigint.Balloc(a.x.Length);
    var wa := a.wds;
    DiffWords(c.x, a.x, wa, b.x, b.wds);
    EmptyIsZero();
    ghost var cs := c.x[..];
    assert cs[..wa] == c.x[..wa] && cs[..0] == [];
    while c.x[wa - 1] == 0
      invariant 0 < wa <= |cs| && c.x[..] == cs
      invariant Val(cs[..wa]) == a.Value() - b.Value() > 0
      decreases wa
    {
      ValTrim(cs, wa - 1);
      wa := wa - 1;
    }
    c.wds := wa;
    assert cs[..wa] == c.x[..wa];
  }

  lemma ZeroesAlike(a: Bigint, b: Bigint)
    requires a.Valid() && b.Valid() && a.wds > 0 && b.wds > 0
    ensures a.Value() == 0 == b.Value() ==> a.wds == b.wds
  {
    if a.Value() == 0 == b.Value() {
      ZeroIsShort(a);
      ZeroIsShort(b);
    }
  }

  lemma MoreWords(a: Bigint, b: Bigint)
    requires a.Valid() && b.Valid() && b.Value() < a.Value()
    ensures b.wds <= a.wds
  {
    if a.wds < b.wds {
      WordCountDecides(a, b);
    }
  }

  // Bits.

  /** Leading zero bits of a word. */
  function Hi0bits(x: Word): (h: nat)
    requires x > 0
    ensures h <= 31 && Pow(2, 31 - h) <= x < Pow(2, 32 - h)
    decreases BASE - x
  {
    if x >= 0x8000_0000 then
      WordPowers();
      0
    else
      var h := Hi0bits(2 * x);
      h + 1
  }

  lemma {:induction false} Hi0Shift(x: Word, j: nat)
    requires 0 < x && x * Pow(2, j) < BASE
    ensures x * Pow(2, j) > 0
    ensures Hi0bits(x) == j + Hi0bits(x * Pow(2, j))
    decreases j
  {
    if j > 0 {
      assert x * Pow(2, j) == 2 * x * Pow(2, j - 1);
      PowPositive(2, j - 1);
      MulMono(2 * x, 1, Pow(2, j - 1));
      Hi0Shift(2 * x, j - 1);
    } else {
      assert x * Pow(2, 0) == x;
    }
  }

  lemma SmallTwos()
    ensures Pow(2, 2) == 4 && Pow(2, 4) == 0x10 && Pow(2, 8) == 0x100 && Pow(2, 16) == 0x1_0000
    ensures Pow(2, 0) == 1 && Pow(2, 1) == 2
  {
    assert Pow(2, 2) == 4 && Pow(2, 4) == 0x10;
    PowAdd(2, 4, 4);
    PowAdd(2, 8, 8);
  }

  /** One step: j bits further when that many high bits are zero. */
  method SkipZeroes(x0: Word, x: Word, k: nat, j: nat, p: Word, c: Word) returns (k': nat, x': Word)
    requires p == Pow(2, j) && p * c == BASE
    requires if x0 == 0 then x == 0 else x > 0 && x * p >= c && Hi0bits(x0) == k + Hi0bits(x)
    ensures if x0 == 0 then x' == 0 && k' == k + j else x' > 0 && x' >= c && Hi0bits(x0) == k' + Hi0bits(x')
  {
    hide Hi0bits, Pow;
    k', x' := k, x;
    if x < c {
      MulMono(p, x + 1, c);
      MulAddOne(p, x);
      if x > 0 {
        Hi0Shift(x, j);
      }
      k', x' := k + j, x * p;
    }
  }

  /** `hi0bits`: steps of 16, 8, 4, 2 and 1 bits. */
  method CountHi0bits(x0: Word) returns (k: nat)
    ensures x0 > 0 ==> k == Hi0bits(x0)
    ensures x0 == 0 ==> k == 32
  {
    SmallTwos();
    hide Hi0bits, Pow;
    k := 0;
    var x := x0;
    k, x := SkipZeroes(x0, x, k, 16, 0x1_0000, 0x1_0000);
    k, x := SkipZeroes(x0, x, k, 8, 0x100, 0x100_0000);
    k, x := SkipZeroes(x0, x, k, 4, 0x10, 0x1000_0000);
    k, x := SkipZeroes(x0, x, k, 2, 4, 0x4000_0000);
    if x > 0 {
      LastHi0bit(x);
    }
    if x < 0x8000_0000 {
      k := k + 1;
      if x < 0x4000_0000 {
        return 32;
      }
    }
  }

  lemma LastHi0bit(x: Word)
    requires x >= 0x4000_0000
    ensures Hi0bits(x) == if x < 0x8000_0000 then 1 else 0
  {
  }

  /** x0 is x times 2^k with x odd. */
  ghost predicate OddPart(x0: nat, x: nat, k: nat) {
    x0 == x * Pow(2, k) && x % 2 == 1
  }

  lemma Halve(x0: nat, x: nat, k: nat, j: nat, p: nat)
    requires p == Pow(2, j) && p > 0 && x % p == 0 && x0 == x * Pow(2, k)
    ensures x0 == x / p * Pow(2, k + j)
  {
    PowAdd(2, k, j);
    assert x == x / p * p;
    Shuffle(x / p, p, Pow(2, k));
  }

  lemma Shuffle(q: int, p: int, t: int)
    ensures q * p * t == q * (t * p)
  {
  }

  lemma HalfModulus(x: nat, p: nat)
    requires p > 0 && x % (p * p) != 0 && x % p == 0
    ensures (x / p) % p != 0
  {
    if (x / p) % p == 0 {
      var c := x / p / p;
      assert x == x / p * p && x / p == c * p;
      Shuffle(c, p, p);
      DivisionUnique(x, p * p, c, 0);
    }
  }

  /** One halving step: drops j zero bits when they are there. */
  method DropTwos(y: Word, x: Word, k: nat, j: nat, p: nat) returns (k': nat, x': Word)
    requires p == Pow(2, j) && p > 0 && x > 0 && y == x * Pow(2, k) && x % (p * p) != 0
    ensures x' > 0 && x' % p != 0 && k <= k' <= k + j && y == x' * Pow(2, k')
  {
    k', x' := k, x;
    if x % p == 0 {
      HalfModulus(x, p);
      Halve(y, x, k, j, p);
      MulMono(x / p, 1, p);
      k', x' := k + j, x / p;
    }
  }

  /** The short way for at most two zero bits. */
  method FewTwos(y: Word) returns (k: nat, x: Word)
    requires y % 8 != 0
    ensures k <= 2 && OddPart(y, x, k)
  {
    SmallTwos();
    hide Pow;
    if y % 2 != 0 {
      return 0, y;
    }
    if y % 4 != 0 {
      Halve(y, y, 0, 1, 2);
      return 1, y / 2;
    }
    Halve(y, y, 0, 2, 4);
    return 2, y / 4;
  }

  /** `lo0bits`: trailing zero bits, and the word without them. */
  method Lo0bits(y: Word) returns (k: nat, x: Word)
    requires y > 0
    ensures k <= 31 && OddPart(y, x, k)
  {
    if y % 8 != 0 {
      k, x := FewTwos(y);
      return;
    }
    SmallTwos();
    hide Pow;
    k, x := 0, y;
    k, x := DropTwos(y, x, k, 16, 0x1_0000);
    k, x := DropTwos(y, x, k, 8, 0x100);
    k, x := DropTwos(y, x, k, 4, 0x10);
    k, x := DropTwos(y, x, k, 2, 4);
    k, x := DropTwos(y, x, k, 1, 2);
  }

  /** v has exactly n significant bits. */
  ghost predicate HasBits(v: nat, n: nat) {
    n > 0 && Pow(2, n - 1) <= v < Pow(2, n)
  }

  /** The top word tells how many bits the whole number has. */
  lemma BitsOfTop(s: seq<Word>)
    requires |s| > 0 && s[|s| - 1] > 0
    ensures HasBits(Val(s), 32 * |s| - Hi0bits(s[|s| - 1]))
  {
    var n, t := |s| - 1, s[|s| - 1];
    var h := Hi0bits(t);
    TopWord(s);
    BaseIsPow2(n);
    PowAdd(2, 31 - h, 32 * n);
    PowAdd(2, 32 - h, 32 * n);
    Between(Pow(2, 32 * n), Pow(2, 31 - h), t, Pow(2, 32 - h));
  }

  lemma Between(p: nat, lo: nat, t: nat, hi: nat)
    requires lo <= t < hi
    ensures lo * p <= t * p && t * p + p <= hi * p
  {
    MulMono(p, lo, t);
    MulMono(p, t + 1, hi);
    MulAddOne(p, t);
  }

  lemma TopPositive(s: seq<Word>)
    requires |s| > 0 && (|s| > 1 ==> s[|s| - 1] != 0) && Val(s) > 0
    ensures s[|s| - 1] > 0
  {
    if |s| == 1 {
      assert s[..0] == [];
    }
  }
}
