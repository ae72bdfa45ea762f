/** The linear congruential generator behind `rand`, and its full period. */
module Rand {
  import opened Powers

  const MULTIPLIER: nat := 6364136223846793005
  const RAND_MAX: nat := 0x7fff_ffff

  /** 2^64, the range of `unsigned long long`. */
  const WRAP: nat := 0x1_0000_0000_0000_0000

  function Next(x: nat): nat {
    (x * MULTIPLIER + 1) % WRAP
  }

  /** `(state >> 32) & RAND_MAX`. */
  function Output(x: nat): nat {
    (x / 0x1_0000_0000) % (RAND_MAX + 1)
  }

  /** The state after n calls. */
  function State(x: nat, n: nat): nat {
    if n == 0 then x else Next(State(x, n - 1))
  }

  /** The states and outputs after the seed 1, in numerals. */
  lemma FromOne()
    ensures State(1, 1) == 6364136223846793006 && Output(State(1, 1)) == 1481765933
    ensures State(1, 2) == 13885033948157127959 && Output(State(1, 2)) == 1085377743
    ensures State(1, 3) == 14678909342070756876 && Output(State(1, 3)) == 1270216262
  {
    assert State(1, 0) == 1;
  }

  class Generator {
    /** `_rand_next`. */
    var next: nat
    ghost var seed: nat
    ghost var history: seq<nat>  // what the calls since the seeding have returned

    /** The state is the seed moved on once a call, and every call has returned its output. */
    ghost predicate Valid()
      reads this
    {
      && seed < WRAP && next == State(seed, |history|) && next < WRAP
      && forall i :: 0 <= i < |history| ==> history[i] == Output(State(seed, i + 1))
    }

    constructor (seed: nat)
      requires seed < 0x1_0000_0000
      ensures Valid() && this.seed == seed && history == []
    {
      next, this.seed, history := seed, seed, [];
    }

    method Srand(newSeed: nat)
      requires newSeed < 0x1_0000_0000
      modifies this
      ensures Valid() && seed == newSeed && history == []
    {
      next, seed, history := newSeed, newSeed, [];
    }

    method Rand() returns (r: nat)
      requires Valid()
      modifies this
      ensures Valid() && seed == old(seed)
      ensures history == old(history) + [r] && r <= RAND_MAX
      ensures next == (6364136223846793005 * old(next) + 1) % 0x1_0000_0000_0000_0000
      ensures r == next / 0x1_0000_0000 % 0x8000_0000
    {
      next := (next * MULTIPLIER + 1) % WRAP;
      r := (next / 0x1_0000_0000) % (RAND_MAX + 1);
      history := history + [r];
    }
  }

  /** 1 + a + ... + a^(n-1). */
  function Geometric(a: nat, n: nat): nat {
    if n == 0 then 0 else a * Geometric(a, n - 1) + 1
  }

  /** (a - 1) times the geometric sum telescopes. */
  lemma {:induction false} Telescope(a: nat, n: nat)
    requires a > 0
    ensures (a - 1) * Geometric(a, n) == Pow(a, n) - 1
  {
    if n > 0 {
      Telescope(a, n - 1);
      TelescopeStep(a, Geometric(a, n - 1));
    }
  }

  lemma TelescopeStep(a: int, g: int)
    ensures (a - 1) * (a * g + 1) == a * ((a - 1) * g) + (a - 1)
  {
  }

  /** A sum of an even number of terms factors. */
  lemma {:induction false} GeometricDouble(a: nat, n: nat)
    requires a > 0
    ensures Geometric(a, 2 * n) == Geometric(a, n) * (1 + Pow(a, n))
  {
    GeometricSplit(a, n, n);
  }

  lemma {:induction false} GeometricSplit(a: nat, m: nat, n: nat)
    requires a > 0
    ensures Geometric(a, m + n) == Geometric(a, n) * Pow(a, m) + Geometric(a, m)
  {
    if m > 0 {
      GeometricSplit(a, m - 1, n);
      SplitStep(a, Geometric(a, n), Pow(a, m - 1), Geometric(a, m - 1));
    } else {
      assert Geometric(a, n) * Pow(a, 0) == Geometric(a, n);
    }
  }

  lemma SplitStep(a: nat, g: nat, p: nat, h: nat)
    ensures a * (g * p + h) + 1 == g * (a * p) + (a * h + 1)
  {
  }

  /** Congruent to 1 modulo 4 is kept by powers. */
  lemma {:induction false} PowModFour(a: nat, n: nat)
    requires a % 4 == 1
    ensures Pow(a, n) % 4 == 1
  {
    if n > 0 {
      PowModFour(a, n - 1);
      ProductModFour(a, Pow(a, n - 1));
    }
  }

  lemma ProductModFour(a: nat, b: nat)
    requires a % 4 == 1 && b % 4 == 1
    ensures a * b % 4 == 1
  {
    var i, j := a / 4, b / 4;
    assert a == 4 * i + 1 && b == 4 * j + 1;
    FourfoldProduct(i, j);
    DivisionUnique(a * b, 4, 4 * (i * j) + i + j, 1);
  }

  lemma FourfoldProduct(i: nat, j: nat)
    ensures (4 * i + 1) * (4 * j + 1) == 4 * (4 * (i * j) + i + j) + 1
  {
  }

  /** The sum has the parity of its number of terms. */
  lemma {:induction false} GeometricParity(a: nat, n: nat)
    requires a % 2 == 1
    ensures Geometric(a, n) % 2 == n % 2
  {
    if n > 0 {
      GeometricParity(a, n - 1);
      OddTimes(a, Geometric(a, n - 1));
      Successor(a * Geometric(a, n - 1), n - 1);
    }
  }

  lemma Successor(x: nat, n: nat)
    requires x % 2 == n % 2
    ensures (x + 1) % 2 == (n + 1) % 2
  {
  }

  lemma OddTimes(a: nat, g: nat)
    requires a % 2 == 1
    ensures a * g % 2 == g % 2
  {
    var i := a / 2;
    assert a * g == 2 * (i * g) + g by {
      assert a == 2 * i + 1;
    }
  }

  /** Whether 2^e divides x, by halving. */
  predicate DividesTwos(e: nat, x: nat) {
    e == 0 || (x % 2 == 0 && DividesTwos(e - 1, x / 2))
  }

  lemma {:induction false} OddFactor(e: nat, x: nat, o: nat)
    requires o % 2 == 1
    ensures DividesTwos(e, x * o) <==> DividesTwos(e, x)
  {
    if e > 0 {
      OddTimes(o, x);
      if x % 2 == 0 {
        HalfProduct(x / 2, o, x);
        OddFactor(e - 1, x / 2, o);
      }
    }
  }

  lemma HalfProduct(h: nat, o: nat, x: nat)
    requires x == 2 * h
    ensures x * o == 2 * (h * o) && x * o / 2 == h * o
  {
  }

  /** 2^e divides the sum of n powers of a exactly when it divides n. */
  lemma {:induction false} GeometricTwos(a: nat, n: nat, e: nat)
    requires a % 4 == 1
    ensures DividesTwos(e, Geometric(a, n)) <==> DividesTwos(e, n)
  {
    if e > 0 {
      GeometricParity(a, n);
      if n % 2 == 0 {
        var o := EvenGeometric(a, n);
        OddFactor(e - 1, Geometric(a, n / 2), o);
        GeometricTwos(a, n / 2, e - 1);
      }
    }
  }

  /** An even sum is twice the half sum, up to an odd factor. */
  lemma EvenGeometric(a: nat, n: nat) returns (o: nat)
    requires a % 4 == 1 && n % 2 == 0
    ensures o % 2 == 1 && Geometric(a, n) / 2 == Geometric(a, n / 2) * o
  {
    hide Pow, Geometric;
    var h := n / 2;
    assert n == 2 * h;
    GeometricDouble(a, h);
    PowModFour(a, h);
    o := (1 + Pow(a, h)) / 2;
    TwiceOut(Geometric(a, h), o, 1 + Pow(a, h));
  }

  lemma TwiceOut(g: nat, o: nat, p: nat)
    requires p == 2 * o
    ensures g * p == 2 * (g * o) && g * p / 2 == g * o
  {
  }

  lemma {:induction false} DividesTwosMod(e: nat, x: nat)
    ensures Pow(2, e) > 0
    ensures DividesTwos(e, x) <==> x % Pow(2, e) == 0
  {
    PowPositive(2, e);
    if e > 0 {
      DividesTwosMod(e - 1, x / 2);
      HalveModulus(x, Pow(2, e - 1));
    } else {
      assert Pow(2, 0) == 1;
    }
  }

  lemma HalveModulus(x: nat, p: nat)
    requires p > 0
    ensures x % (2 * p) == 0 <==> x % 2 == 0 && (x / 2) % p == 0
  {
    if x % (2 * p) == 0 {
      var c := x / (2 * p);
      assert x == 2 * p * c;
      assert x == 2 * (p * c);
      MultipleMod(p, c);
    }
    if x % 2 == 0 && (x / 2) % p == 0 {
      var c := x / 2 / p;
      assert x / 2 == p * c;
      assert x == (2 * p) * c;
      MultipleMod(2 * p, c);
    }
  }

  lemma MultipleMod(p: nat, c: nat)
    requires p > 0
    ensures (p * c) % p == 0
  {
    DivisionUnique(p * c, p, c, 0);
  }

  // The state in closed form.

  lemma ModLinear(y: nat)
    ensures ((y % WRAP) * MULTIPLIER + 1) % WRAP == (MULTIPLIER * y + 1) % WRAP
  {
    var q := y / WRAP;
    assert MULTIPLIER * y + 1 == WRAP * (MULTIPLIER * q) + ((y % WRAP) * MULTIPLIER + 1) by {
      assert y == WRAP * q + y % WRAP;
    }
    AddMultiple(MULTIPLIER * q, (y % WRAP) * MULTIPLIER + 1);
  }

  lemma AddMultiple(c: nat, r: nat)
    ensures (WRAP * c + r) % WRAP == r % WRAP
  {
  }

  /** n calls multiply by a^n and add the geometric sum. */
  lemma {:induction false} StateClosed(x: nat, n: nat)
    requires x < WRAP
    ensures State(x, n) == (Pow(MULTIPLIER, n) * x + Geometric(MULTIPLIER, n)) % WRAP
  {
    if n > 0 {
      StateClosed(x, n - 1);
      var y := Pow(MULTIPLIER, n - 1) * x + Geometric(MULTIPLIER, n - 1);
      ModLinear(y);
      Multiply(MULTIPLIER, Pow(MULTIPLIER, n - 1), x, Geometric(MULTIPLIER, n - 1));
    } else {
      assert Pow(MULTIPLIER, 0) * x == x;
    }
  }

  lemma Multiply(a: nat, p: nat, x: nat, g: nat)
    ensures a * (p * x + g) == a * p * x + a * g
  {
  }

  lemma SameResidue(y: nat, x: nat, z: nat)
    requires x < WRAP && y == x + z
    ensures y % WRAP == x <==> z % WRAP == 0
  {
  }

  /** The state comes back to its start after a multiple of 2^64 calls, and never in between. */
  lemma FullPeriod(x: nat, n: nat)
    requires x < WRAP
    ensures State(x, n) == x <==> n % WRAP == 0
  {
    hide Pow, Geometric, State, DividesTwos;
    var a := MULTIPLIER;
    var g := Geometric(a, n);
    StateClosed(x, n);
    Telescope(a, n);
    // a^n * x + g - x == g * ((a - 1) * x + 1)
    var o := (a - 1) * x + 1;
    Rearrange(Pow(a, n), a - 1, g, x);
    SameResidue(Pow(a, n) * x + g, x, g * o);
    OddOffset(x);
    WrapIsPow();
    DividesTwosMod(64, g * o);
    OddFactor(64, g, o);
    GeometricTwos(a, n, 64);
    DividesTwosMod(64, n);
  }

  lemma Rearrange(p: nat, b: nat, g: nat, x: nat)
    requires b * g == p - 1
    ensures p * x + g == x + g * (b * x + 1)
  {
    assert g * (b * x + 1) == (b * g) * x + g;
  }

  lemma OddOffset(x: nat)
    ensures ((MULTIPLIER - 1) * x + 1) % 2 == 1
  {
    EvenFactor(MULTIPLIER - 1, x);
  }

  lemma EvenFactor(b: nat, x: nat)
    requires b % 2 == 0
    ensures (b * x + 1) % 2 == 1
  {
    EvenTimes(b / 2, x);
  }

  lemma EvenTimes(c: nat, x: nat)
    ensures (2 * c) * x == 2 * (c * x)
  {
  }

  lemma WrapIsPow()
    ensures Pow(2, 64) == WRAP
  {
    assert Pow(2, 8) == 256;
    PowAdd(2, 8, 8);
    PowAdd(2, 16, 16);
    PowAdd(2, 32, 32);
  }

  lemma {:induction false} StateAdd(x: nat, m: nat, n: nat)
    ensures State(x, m + n) == State(State(x, m), n)
  {
    if n > 0 {
      StateAdd(x, m, n - 1);
    }
  }

  lemma {:induction false} StateInRange(x: nat, n: nat)
    requires x < WRAP
    ensures State(x, n) < WRAP
  {
  }

  /** Two calls less than a period apart never leave the same state. */
  lemma StatesDistinct(x: nat, i: nat, j: nat)
    requires x < WRAP && i < j < i + WRAP
    ensures State(x, i) != State(x, j)
  {
    hide State, Next;
    StateAdd(x, i, j - i);
    StateInRange(x, i);
    FullPeriod(State(x, i), j - i);
  }

  // Counting over one period.

  /** Always true: names the numbers the quantifiers below range over. */
  ghost predicate Counted(i: nat) {
    true
  }

  ghost function Below(n: nat): set<nat> {
    set i: nat | i < n && Counted(i)
  }

  lemma BelowHas(n: nat, i: nat)
    ensures i in Below(n) <==> i < n
  {
    assert Counted(i);
  }

  lemma {:induction false} BelowCount(n: nat)
    ensures |Below(n)| == n
  {
    if n > 0 {
      BelowCount(n - 1);
      assert Counted(n - 1);
      assert Below(n) == Below(n - 1) + {n - 1};
    }
  }

  lemma {:induction false} ImageCount(s: set<nat>, f: nat -> nat, t: set<nat>)
    requires forall i, j :: i in s && j in s && f(i) == f(j) ==> i == j
    requires forall i :: i in s ==> f(i) in t
    requires forall y :: y in t ==> exists i :: i in s && f(i) == y
    ensures |s| == |t|
    decreases s
  {
    if s == {} {
      assert t == {};
    } else {
      var x :| x in s;
      ImageCount(s - {x}, f, t - {f(x)});
    }
  }

  /** An injection of a finite range into itself reaches everything. */
  lemma InjectionFills(n: nat, f: nat -> nat, y: nat)
    requires forall i, j :: i in Below(n) && j in Below(n) && f(i) == f(j) ==> i == j
    requires forall i :: i in Below(n) ==> f(i) in Below(n)
    requires y in Below(n)
    ensures exists i :: i in Below(n) && f(i) == y
  {
    var t := set i | i in Below(n) :: f(i);
    ImageCount(Below(n), f, t);
    SubsetFull(t, Below(n));
    assert y in t;
  }

  lemma SubsetFull(s: set<nat>, t: set<nat>)
    requires s <= t && |s| == |t|
    ensures s == t
  {
    if s != t {
      var x :| x in t && x !in s;
      SubsetSize(s, t - {x});
    }
  }

  lemma {:induction false} SubsetSize(s: set<nat>, t: set<nat>)
    requires s <= t
    ensures |s| <= |t|
    decreases s
  {
    if s != {} {
      var x :| x in s;
      SubsetSize(s - {x}, t - {x});
    }
  }

  /** The calls of one period, numbered from 0, that return v. */
  ghost function CallsReturning(x: nat, v: nat): set<nat> {
    set n | n in Below(WRAP) && Output(State(x, n + 1)) == v
  }

  /** The states that return v. */
  ghost function StatesReturning(v: nat): set<nat> {
    set s | s in Below(WRAP) && Output(s) == v
  }

  /** The i-th of the 2^33 states that output v. */
  function StateWithOutput(v: nat, i: nat): nat {
    (i / 0x1_0000_0000) * 0x8000_0000_0000_0000 + v * 0x1_0000_0000 + i % 0x1_0000_0000
  }

  lemma StateWithOutputUnique(v: nat, i: nat, j: nat)
    requires v <= RAND_MAX && i < 0x2_0000_0000 && j < 0x2_0000_0000
    ensures StateWithOutput(v, i) == StateWithOutput(v, j) ==> i == j
    ensures StateWithOutput(v, i) < WRAP && Output(StateWithOutput(v, i)) == v
  {
    hide StateWithOutput;
    Fields(v, i);
    Fields(v, j);
  }

  /** The low word and the two parts of the high word come apart again. */
  lemma Fields(v: nat, i: nat)
    requires v <= RAND_MAX && i < 0x2_0000_0000
    ensures var s := StateWithOutput(v, i);
            && s < WRAP && s % 0x1_0000_0000 == i % 0x1_0000_0000
            && s / 0x1_0000_0000 == (i / 0x1_0000_0000) * 0x8000_0000 + v
            && Output(s) == v
  {
    var h, l := i / 0x1_0000_0000, i % 0x1_0000_0000;
    DivisionUnique(StateWithOutput(v, i), 0x1_0000_0000, h * 0x8000_0000 + v, l);
    DivisionUnique(h * 0x8000_0000 + v, 0x8000_0000, h, v);
  }

  lemma StateWithOutputFound(s: nat) returns (i: nat)
    requires s < WRAP
    ensures i < 0x2_0000_0000 && StateWithOutput(Output(s), i) == s
  {
    var t, l := s / 0x1_0000_0000, s % 0x1_0000_0000;
    var h, v := t / 0x8000_0000, t % 0x8000_0000;
    i := h * 0x1_0000_0000 + l;
    DivisionUnique(i, 0x1_0000_0000, h, l);
  }

  lemma StatesReturningCount(v: nat)
    requires v <= RAND_MAX
    ensures |StatesReturning(v)| == 0x2_0000_0000
  {
    hide Output, StateWithOutput, Below;
    var ith := (i: nat) => StateWithOutput(v, i);
    forall i, j | i in Below(0x2_0000_0000) && j in Below(0x2_0000_0000)
      ensures ith(i) == ith(j) ==> i == j
      ensures ith(i) in StatesReturning(v)
    {
      BelowHas(0x2_0000_0000, i);
      BelowHas(0x2_0000_0000, j);
      StateWithOutputUnique(v, i, j);
      BelowHas(WRAP, ith(i));
    }
    forall s | s in StatesReturning(v) ensures exists i :: i in Below(0x2_0000_0000) && ith(i) == s {
      BelowHas(WRAP, s);
      var i := StateWithOutputFound(s);
      BelowHas(0x2_0000_0000, i);
      assert ith(i) == s;
    }
    ImageCount(Below(0x2_0000_0000), ith, StatesReturning(v));
    BelowCount(0x2_0000_0000);
  }

  lemma VisitsDistinct(x: nat, i: nat, j: nat)
    requires x < WRAP && i in Below(WRAP) && j in Below(WRAP)
    ensures State(x, i + 1) == State(x, j + 1) ==> i == j
    ensures State(x, i + 1) in Below(WRAP)
  {
    hide State;
    BelowHas(WRAP, i);
    BelowHas(WRAP, j);
    StateInRange(x, i + 1);
    BelowHas(WRAP, State(x, i + 1));
    if i < j {
      StatesDistinct(x, i + 1, j + 1);
    } else if j < i {
      StatesDistinct(x, j + 1, i + 1);
    }
  }

  /** Over one period every value from 0 to RAND_MAX is returned exactly 2^33 times. */
  lemma OutputsUniform(x: nat, v: nat)
    requires x < WRAP && v <= RAND_MAX
    ensures |CallsReturning(x, v)| == 0x2_0000_0000
  {
    hide Output, State, Below;
    var visit := (n: nat) => State(x, n + 1);
    forall i, j | i in Below(WRAP) && j in Below(WRAP)
      ensures visit(i) == visit(j) ==> i == j
      ensures visit(i) in Below(WRAP)
    {
      VisitsDistinct(x, i, j);
    }
    forall s | s in StatesReturning(v) ensures exists n :: n in CallsReturning(x, v) && visit(n) == s {
      InjectionFills(WRAP, visit, s);
      var n :| n in Below(WRAP) && visit(n) == s;
      assert n in CallsReturning(x, v);
    }
    ImageCount(CallsReturning(x, v), visit, StatesReturning(v));
    StatesReturningCount(v);
  }

  // Runs of a generator.

  /** The state of a run is the seed again exactly after whole periods. */
  lemma RunReturns(g: Generator)
    requires g.Valid()
    ensures g.next == g.seed <==> |g.history| % WRAP == 0
  {
    FullPeriod(g.seed, |g.history|);
  }

  /** What a run returns repeats after a period. */
  lemma RunRepeats(g: Generator, i: nat)
    requires g.Valid() && i + WRAP < |g.history|
    ensures g.history[i + WRAP] == g.history[i]
  {
    StateAdd(g.seed, WRAP, i + 1);
    FullPeriod(g.seed, WRAP);
  }

  /** The calls among 2^64 in a row, from the one numbered i on, that returned v. */
  ghost function ReturnsSince(g: Generator, i: nat, v: nat): set<nat>
    requires i + WRAP <= |g.history|
    reads g
  {
    set n | n in Below(WRAP) && InRun(g, i, n) && g.history[i + n] == v
  }

  ghost predicate InRun(g: Generator, i: nat, n: nat)
    reads g
  {
    i + n < |g.history|
  }

  /** Any 2^64 calls in a row return every value exactly 2^33 times. */
  lemma RunUniform(g: Generator, i: nat, v: nat)
    requires g.Valid() && i + WRAP <= |g.history| && v <= RAND_MAX
    ensures |ReturnsSince(g, i, v)| == 0x2_0000_0000
  {
    hide State, Output, Below;
    var x := State(g.seed, i);
    StateInRange(g.seed, i);
    OutputsUniform(x, v);
    forall n | n in Below(WRAP)
      ensures InRun(g, i, n) && g.history[i + n] == Output(State(x, n + 1))
    {
      BelowHas(WRAP, n);
      StateAdd(g.seed, i, n + 1);
    }
    assert ReturnsSince(g, i, v) == CallsReturning(x, v);
  }
}
