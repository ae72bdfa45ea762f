/** The free-format loop of `_dtoa_r` on multi-word numbers. */
module FreeDigits {
  import opened Powers
  import opened Bigints
  import opened Mprec
  import opened Decimal
  import opened FreeFormat

  /** What the tests after one quotient digit decide. */
  datatype Action = Emit(up: nat) | RoundNineUp | NextDigit

  /** `cmp (b, S - mhi)`; a negative difference counts as larger. */
  method CompareHigh(b: Bigint, S: Bigint, mhi: Bigint) returns (j1: int)
    requires b.Valid() && S.Valid() && mhi.Valid() && S.wds > 0 && mhi.wds > 0
    ensures j1 > 0 <==> b.Value() + mhi.Value() > S.Value()
    ensures j1 == 0 ==> b.Value() + mhi.Value() == S.Value()
    ensures b.Value() > 0 && b.Value() + mhi.Value() == S.Value() ==> j1 == 0
  {
    var delta, sign := Diff(S, mhi);
    j1 := 1;
    if !sign {
      if b.Value() == 0 {
        ZeroIsShort(b);
      }
      j1 := Cmp(b, delta);
    }
  }

  /** `cmp (2b, S)`: which neighbour is closer. */
  method CompareHalf(b: Bigint, S: Bigint) returns (j1: int)
    requires b.Valid() && b.x.Length > 1 && S.Valid() && S.wds > 0 && S.Value() > 0
    ensures j1 > 0 <==> 2 * b.Value() > S.Value()
    ensures j1 == 0 <==> 2 * b.Value() == S.Value()
  {
    var b2 := Lshift(b, 1);
    assert Pow(2, 1) == 2;
    j1 := Cmp(b2, S);
  }

  /** The stopping tests in the order of the source, with the round-to-even tie on the digit. */
  method Decide(b: Bigint, S: Bigint, mlo: Bigint, mhi: Bigint, dig: nat, closed: bool) returns (a: Action)
    requires b.Valid() && b.x.Length > 1 && S.Valid() && mlo.Valid() && mhi.Valid()
    requires S.wds > 0 && mlo.wds > 0 && mhi.wds > 0 && dig <= 9
    requires 0 < mlo.Value() <= mhi.Value() && b.Value() < S.Value()
    ensures var (r, s, lo, hi) := (b.Value(), S.Value(), mlo.Value(), mhi.Value());
            var low := r < lo || (closed && r == lo);
            var high := r + hi > s || (closed && r + hi == s);
            && (a.NextDigit? <==> !low && !high)
            && (a.Emit? ==> a.up <= 1 && dig + a.up <= 9)
            && (a.Emit? && a.up == 0 ==> low && (2 * r <= s || !high))
            && (a.Emit? && a.up == 1 ==> high && (2 * r >= s || !low))
            && (a.RoundNineUp? ==> dig == 9 && high && (r + hi != s || 2 * hi < s ==> 2 * r >= s || !low))
            && (a.Emit? && low && high && 2 * r == s ==> (dig + a.up) % 2 == 0 || 2 * lo == 2 * hi == s)
  {
    hide Val;
    var j := Cmp(b, mlo);
    var j1 := CompareHigh(b, S, mhi);
    if j1 == 0 && closed {
      if dig == 9 {
        return RoundNineUp;
      }
      return Emit(if j > 0 then 1 else 0);
    }
    if j < 0 || (j == 0 && closed) {
      if j1 > 0 {
        j1 := CompareHalf(b, S);
        if j1 > 0 || (j1 == 0 && dig % 2 == 1) {
          if dig == 9 {
            return RoundNineUp;
          }
          return Emit(1);
        }
      }
      return Emit(0);
    }
    if j1 > 0 {
      if dig == 9 {
        return RoundNineUp;
      }
      return Emit(1);
    }
    return NextDigit;
  }

  /** A first digit 9 whose upper neighbour 10 is exactly on the end of the interval is rounded up without
      looking which is nearer; elsewhere, or in a narrow interval, the nearer one is taken. */
  ghost predicate NineDecided(p: Scaled) {
    p.b + p.hi != 10 * p.S || 2 * p.hi < p.S
  }

  /** What the loop leaves: ds with `up` added to k. */
  ghost predicate FreeResult(p: Scaled, ds: seq<char>, up: nat) {
    && AllDigits(ds) && |ds| > 0 && ds[0] != '0' && ds[|ds| - 1] != '0'
    && (up == 0 || (up == 1 && |ds| == 1))
    && Shortest(p, Num(ds) * Pow(10, up), |ds|)
    && (NineDecided(p) && Spaced(p) ==> Nearest(p, Num(ds) * Pow(10, up), |ds|))
  }

  lemma EmitResult(p: Scaled, ds: seq<char>, c: nat, q: nat, r: nat, up: nat)
    requires AllDigits(ds) && (|ds| > 0 ==> ds[0] != '0')
    requires Generated(p, |ds|, Num(ds), c) && Divides(c, p.S, q, r)
    requires up <= 1 && q + up <= 9
    requires up == 0 ==> LowOk(p, |ds|, r) && (2 * r <= p.S || !HighOk(p, |ds|, r))
    requires up == 1 ==> HighOk(p, |ds|, r) && (2 * r >= p.S || !LowOk(p, |ds|, r))
    requires LowOk(p, |ds|, r) && HighOk(p, |ds|, r) && 2 * r == p.S ==>
               (q + up) % 2 == 0 || 2 * At(p.lo, |ds| + 1) == 2 * At(p.hi, |ds| + 1) == p.S
    ensures FreeResult(p, ds + [CharOf(q + up)], 0)
  {
    hide AllDigits, Nearest, Num, Pow, At, LowOk, HighOk, Shortest, CharOf, Inside, Spaced, Divides, Generated;
    var n, D := |ds|, Num(ds);
    LastDigit(p, n, D, c, q, r);
    Appended(ds, q + up);
    Chosen(p, n, D, c, q, r, up);
  }

  lemma Chosen(p: Scaled, n: nat, D: nat, c: nat, q: nat, r: nat, up: nat)
    requires Generated(p, n, D, c) && Divides(c, p.S, q, r) && up <= 1
    requires up == 0 ==> LowOk(p, n, r) && (2 * r <= p.S || !HighOk(p, n, r))
    requires up == 1 ==> HighOk(p, n, r) && (2 * r >= p.S || !LowOk(p, n, r))
    requires LowOk(p, n, r) && HighOk(p, n, r) && 2 * r == p.S ==>
               (q + up) % 2 == 0 || 2 * At(p.lo, n + 1) == 2 * At(p.hi, n + 1) == p.S
    ensures Shortest(p, 10 * D + q + up, n + 1)
    ensures Spaced(p) ==> Nearest(p, 10 * D + q + up, n + 1)
  {
    hide Nearest, At, LowOk, HighOk, Shortest, Inside, Spaced, Divides, Generated;
    FreeFormat.NextDigit(p, n, D, c, q, r);
    StopIsShortest(p, n, D, c, 10 * D + q + up);
    if Spaced(p) {
      NotOnBothEnds(p, n, D, c, q, r);
      ChoiceIsNearest(p, n, D, c, q, r, up);
    }
  }

  /** One digit more, not 0. */
  lemma Appended(ds: seq<char>, x: nat)
    requires AllDigits(ds) && x <= 9
    ensures var t := ds + [CharOf(x)];
            && AllDigits(t) && Num(t) * Pow(10, 0) == 10 * Num(ds) + x && (x > 0 ==> t[|ds|] != '0')
  {
    NumAppend(ds, CharOf(x));
    assert Pow(10, 0) == 1;
  }

  /** A 9 is rounded up only as the first digit; the result is then "1", one place up. */
  lemma RoundUpResult(p: Scaled, ds: seq<char>, c: nat, r: nat)
    requires AllDigits(ds) && Generated(p, |ds|, Num(ds), c) && Divides(c, p.S, 9, r)
    requires HighOk(p, |ds|, r)
    requires r + At(p.hi, |ds| + 1) != p.S || 2 * At(p.hi, |ds| + 1) < p.S ==> 2 * r >= p.S || !LowOk(p, |ds|, r)
    ensures |ds| == 0
    ensures FreeResult(p, "1", 1)
  {
    LastDigit(p, |ds|, Num(ds), c, 9, r);
    assert Num(ds) == 0;
    RoundUpFirst(p, c, r);
  }

  lemma RoundUpFirst(p: Scaled, c: nat, r: nat)
    requires Generated(p, 0, 0, c) && Divides(c, p.S, 9, r) && HighOk(p, 0, r)
    requires r + At(p.hi, 1) != p.S || 2 * At(p.hi, 1) < p.S ==> 2 * r >= p.S || !LowOk(p, 0, r)
    ensures FreeResult(p, "1", 1)
  {
    OneAndTen(p);
    hide Pow, At, Nearest, Inside, Generated, Num, Shortest, NoneInside;
    FreeFormat.NextDigit(p, 0, 0, c, 9, r);
    StopIsShortest(p, 0, 0, c, 10);
    NineLeft(p, c, r);
    if NineDecided(p) {
      ChoiceIsNearest(p, 0, 0, c, 9, r, 1);
    }
  }

  lemma NineLeft(p: Scaled, c: nat, r: nat)
    requires Generated(p, 0, 0, c) && Divides(c, p.S, 9, r)
    ensures p.b == 9 * p.S + r
  {
    assert Pow(10, 0) == 1;
  }

  lemma OneAndTen(p: Scaled)
    ensures Num("1") == 1 && Num("1") * Pow(10, 1) == 10 && At(p.hi, 1) == p.hi && At(p.b, 1) == p.b
  {
    assert "1"[..0] == [];
    assert Pow(10, 0) == 1;
  }

  /** One more digit cannot overrun a buffer sized from the width of the interval. */
  lemma {:induction false} RoomForDigit(p: Scaled, n: nat, D: nat, c: nat, limit: nat)
    requires Generated(p, n, D, c) && limit > 0
    requires At(p.lo, limit) + At(p.hi, limit) > p.S
    ensures n < limit
  {
    if n >= limit {
      PowMonotone(10, limit - 1, n - 1);
      MulMono(p.lo, Pow(10, limit - 1), Pow(10, n - 1));
      MulMono(p.hi, Pow(10, limit - 1), Pow(10, n - 1));
    }
  }

  lemma LoneNine(ds: seq<char>)
    requires ds == "9"
    ensures AllDigits(ds) && Num(ds) == 9
  {
    assert ds[..0] == [];
  }

  lemma LoneOne(ds: seq<char>, up: nat)
    requires AllDigits(ds) && |ds| == 1 && up <= 1 && Num(ds) * Pow(10, up) == 10
    ensures ds == "1" && up == 1
  {
    assert ds[..0] == [];
    assert Pow(10, 0) == 1 && Pow(10, 1) == 10;
  }

  /** Four numbers in four places; only mlo and mhi may be one. */
  ghost predicate Apart(b: Bigint, S: Bigint, mlo: Bigint, mhi: Bigint) {
    && b != S && b != mlo && b != mhi && S != mlo && S != mhi
    && b.x != S.x && b.x != mlo.x && b.x != mhi.x && S.x != mlo.x && S.x != mhi.x
    && (mlo != mhi ==> mlo.x != mhi.x)
  }

  /** The loop's numbers after n digits D: b is due for its next quotient digit. */
  ghost predicate Working(b: Bigint, S: Bigint, mlo: Bigint, mhi: Bigint, p: Scaled, n: nat, D: nat)
    reads b, b.x, S, S.x, mlo, mlo.x, mhi, mhi.x
  {
    && b.Valid() && b.x.Length > 1 && Aligned(S) && mlo.Valid() && mhi.Valid() && mlo.wds > 0 && mhi.wds > 0
    && Apart(b, S, mlo, mhi)
    && S.Value() == p.S && mlo.Value() == At(p.lo, n + 1) && mhi.Value() == At(p.hi, n + 1)
    && Generated(p, n, D, b.Value())
  }

  /** Between digits: n digits D are out and b is the remainder they leave. */
  ghost predicate Remaining(b: Bigint, S: Bigint, mlo: Bigint, mhi: Bigint, p: Scaled, n: nat, D: nat)
    reads b, b.x, S, S.x, mlo, mlo.x, mhi, mhi.x
  {
    && b.Valid() && b.x.Length > 1 && Aligned(S) && mlo.Valid() && mhi.Valid() && mlo.wds > 0 && mhi.wds > 0
    && Apart(b, S, mlo, mhi)
    && S.Value() == p.S && n > 0 && mlo.Value() == At(p.lo, n) && mhi.Value() == At(p.hi, n)
    && Generated(p, n, D, 10 * b.Value())
  }

  lemma WorkingHasRoom(b: Bigint, S: Bigint, mlo: Bigint, mhi: Bigint, p: Scaled, n: nat, D: nat, limit: nat)
    requires Working(b, S, mlo, mhi, p, n, D) && limit > 0
    requires At(p.lo, limit) + At(p.hi, limit) > p.S
    ensures n < limit
  {
    RoomForDigit(p, n, D, b.Value(), limit);
  }

  /** One quotient digit and the decision it leads to, with what that decision amounts to. */
  method Step(b: Bigint, S: Bigint, mlo: Bigint, mhi: Bigint, closed: bool, ghost p: Scaled, ghost ds: seq<char>)
    returns (q: nat, a: Action)
    requires closed == p.closed
    requires AllDigits(ds) && (|ds| > 0 ==> ds[0] != '0')
    requires Working(b, S, mlo, mhi, p, |ds|, Num(ds))
    modifies b`wds, b.x
    ensures q <= 9 && (|ds| == 0 ==> q > 0)
    ensures a.Emit? ==> q + a.up <= 9 && FreeResult(p, ds + [CharOf(q + a.up)], 0)
    ensures a.RoundNineUp? ==> |ds| == 0 && FreeResult(p, "1", 1)
    ensures a.NextDigit? ==> Remaining(b, S, mlo, mhi, p, |ds| + 1, 10 * Num(ds) + q)
  {
    ghost var n, c := |ds|, b.Value();
    q := Quorem(b, S);
    ghost var r := b.Value();
    LastDigit(p, n, Num(ds), c, q, r);
    Splits(p, n, Num(ds), c, q, r);
    MulMono(Pow(10, n), p.lo, p.hi);
    a := Decide(b, S, mlo, mhi, q, closed);
    Consequence(p, ds, c, q, r, a);
  }

  lemma Consequence(p: Scaled, ds: seq<char>, c: nat, q: nat, r: nat, a: Action)
    requires AllDigits(ds) && (|ds| > 0 ==> ds[0] != '0') && q <= 9
    requires Generated(p, |ds|, Num(ds), c) && Divides(c, p.S, q, r)
    requires a.NextDigit? <==> !LowOk(p, |ds|, r) && !HighOk(p, |ds|, r)
    requires a.Emit? ==> a.up <= 1 && q + a.up <= 9
    requires a.Emit? && a.up == 0 ==> LowOk(p, |ds|, r) && (2 * r <= p.S || !HighOk(p, |ds|, r))
    requires a.Emit? && a.up == 1 ==> HighOk(p, |ds|, r) && (2 * r >= p.S || !LowOk(p, |ds|, r))
    requires a.Emit? && LowOk(p, |ds|, r) && HighOk(p, |ds|, r) && 2 * r == p.S ==>
               (q + a.up) % 2 == 0 || 2 * At(p.lo, |ds| + 1) == 2 * At(p.hi, |ds| + 1) == p.S
    requires a.RoundNineUp? ==> q == 9 && HighOk(p, |ds|, r)
                                && (r + At(p.hi, |ds| + 1) != p.S || 2 * At(p.hi, |ds| + 1) < p.S ==>
                                      2 * r >= p.S || !LowOk(p, |ds|, r))
    ensures a.Emit? ==> FreeResult(p, ds + [CharOf(q + a.up)], 0)
    ensures a.RoundNineUp? ==> |ds| == 0 && FreeResult(p, "1", 1)
    ensures a.NextDigit? ==> Generated(p, |ds| + 1, 10 * Num(ds) + q, 10 * r)
  {
    match a {
      case Emit(up) => EmitResult(p, ds, c, q, r, up);
      case RoundNineUp => RoundUpResult(p, ds, c, r);
      case NextDigit => KeepGoing(p, |ds|, Num(ds), c, q, r);
    }
  }

  /** The multiplications by ten; mlo and mhi stay one object if they were. */
  method TimesTen(b: Bigint, S: Bigint, mlo: Bigint, mhi: Bigint, ghost p: Scaled, ghost n: nat, ghost D: nat)
    returns (b': Bigint, mlo': Bigint, mhi': Bigint)
    requires Remaining(b, S, mlo, mhi, p, n, D)
    modifies b`wds, b.x, mlo`wds, mlo.x, mhi`wds, mhi.x
    ensures b' == b || (fresh(b') && fresh(b'.x))
    ensures mlo' == mlo || (fresh(mlo') && fresh(mlo'.x))
    ensures mhi' == mhi || (fresh(mhi') && fresh(mhi'.x))
    ensures Working(b', S, mlo', mhi', p, n, D)
  {
    hide Val, At, Generated, Pow;
    AtNext(p.lo, n);
    AtNext(p.hi, n);
    ghost var c, lo, hi := b.Value(), mlo.Value(), mhi.Value();
    b' := MultAdd(b, 10, 0);
    assert Aligned(S) && S.Value() == p.S;
    assert mlo.Valid() && mlo.Value() == lo && mhi.Valid() && mhi.Value() == hi;
    mlo', mhi' := TenGaps(mlo, mhi);
    assert Aligned(S) && S.Value() == p.S;
    assert b'.Valid() && b'.Value() == 10 * c;
  }

  /** mlo and mhi stay one object if they were. */
  method TenGaps(mlo: Bigint, mhi: Bigint) returns (mlo': Bigint, mhi': Bigint)
    requires mlo.Valid() && mhi.Valid() && mlo.wds > 0 && mhi.wds > 0
    requires mlo != mhi ==> mlo.x != mhi.x
    modifies mlo`wds, mlo.x, mhi`wds, mhi.x
    ensures mlo' == mlo || (fresh(mlo') && fresh(mlo'.x))
    ensures mhi' == mhi || (fresh(mhi') && fresh(mhi'.x))
    ensures mlo'.Valid() && mhi'.Valid() && mlo'.wds > 0 && mhi'.wds > 0
    ensures mlo'.Value() == 10 * old(mlo.Value()) && mhi'.Value() == 10 * old(mhi.Value())
    ensures if mlo == mhi then mlo' == mhi' else mlo' != mhi' && mlo'.x != mhi'.x
  {
    hide Val, Pow;
    if mlo == mhi {
      mhi' := MultAdd(mhi, 10, 0);
      mlo' := mhi';
    } else {
      ghost var hi := mhi.Value();
      mlo' := MultAdd(mlo, 10, 0);
      assert mhi.Valid() && mhi.Value() == hi;
      mhi' := MultAdd(mhi, 10, 0);
    }
  }

  /** `*s++ = '0' + d` after the digits ds. */
  method PutDigit(s: array<char>, n: nat, d: nat, ghost ds: seq<char>)
    requires n < s.Length && d <= 9 && s[..n] == ds
    modifies s
    ensures s[..n + 1] == ds + [CharOf(d)]
  {
    s[n] := CharOf(d);
  }

  /** The last digit, or the 9 that rounds up to a 1 one place further up. */
  method Finish(s: array<char>, n0: nat, q: nat, a: Action, ghost p: Scaled, ghost ds: seq<char>)
    returns (n: nat, up: nat)
    requires n0 < s.Length && s[..n0] == ds && !a.NextDigit?
    requires a.Emit? ==> q + a.up <= 9 && FreeResult(p, ds + [CharOf(q + a.up)], 0)
    requires a.RoundNineUp? ==> n0 == 0 && FreeResult(p, "1", 1)
    modifies s
    ensures 0 < n <= n0 + 1 && FreeResult(p, s[..n], up)
  {
    hide FreeResult;
    match a {
      case RoundNineUp =>
        s[n0] := '9';
        LoneNine(s[..n0 + 1]);
        n, up := Roundoff(s, n0 + 1);
        LoneOne(s[..n], up);
      case Emit(more) =>
        PutDigit(s, n0, q + more, ds);
        n, up := n0 + 1, 0;
    }
  }

  /** One digit out, and everything ten times larger for the next. */
  method Advance(b: Bigint, S: Bigint, mlo: Bigint, mhi: Bigint, s: array<char>, n: nat, q: nat,
                 ghost p: Scaled, ghost ds: seq<char>)
    returns (b': Bigint, mlo': Bigint, mhi': Bigint)
    requires n == |ds| < s.Length && s[..n] == ds && AllDigits(ds) && q <= 9
    requires Remaining(b, S, mlo, mhi, p, n + 1, 10 * Num(ds) + q)
    modifies b`wds, b.x, mlo`wds, mlo.x, mhi`wds, mhi.x, s
    ensures b' == b || (fresh(b') && fresh(b'.x))
    ensures mlo' == mlo || (fresh(mlo') && fresh(mlo'.x))
    ensures mhi' == mhi || (fresh(mhi') && fresh(mhi'.x))
    ensures AllDigits(ds + [CharOf(q)]) && s[..n + 1] == ds + [CharOf(q)]
    ensures Working(b', S, mlo', mhi', p, n + 1, Num(ds + [CharOf(q)]))
  {
    hide Working, Remaining;
    NumAppend(ds, CharOf(q));
    b', mlo', mhi' := TimesTen(b, S, mlo, mhi, p, n + 1, 10 * Num(ds) + q);
    PutDigit(s, n, q, ds);
  }

  /** Emits digits until the tests stop it. */
  method Generate(b0: Bigint, S: Bigint, mlo0: Bigint, mhi0: Bigint, closed: bool, s: array<char>,
                  ghost p: Scaled, ghost limit: nat)
    returns (n: nat, up: nat)
    requires closed == p.closed
    requires Working(b0, S, mlo0, mhi0, p, 0, 0)
    requires 0 < limit <= s.Length && At(p.lo, limit) + At(p.hi, limit) > p.S
    modifies b0`wds, b0.x, mlo0`wds, mlo0.x, mhi0`wds, mhi0.x, s
    ensures 0 < n <= limit && FreeResult(p, s[..n], up)
  {
    hide Working, Remaining, FreeResult, At, Generated, Num, AllDigits, CharOf;
    NoDigitsYet();
    var b, mlo, mhi := b0, mlo0, mhi0;
    ghost var ds := [];
    n, up := 0, 0;
    while true
      invariant b == b0 || (fresh(b) && fresh(b.x))
      invariant mlo == mlo0 || (fresh(mlo) && fresh(mlo.x))
      invariant mhi == mhi0 || (fresh(mhi) && fresh(mhi.x))
      invariant n == |ds| <= s.Length && s[..n] == ds && AllDigits(ds) && (n > 0 ==> ds[0] != '0')
      invariant Working(b, S, mlo, mhi, p, n, Num(ds))
      decreases limit - n
    {
      WorkingHasRoom(b, S, mlo, mhi, p, n, Num(ds), limit);
      var q, a := Step(b, S, mlo, mhi, closed, p, ds);
      if !a.NextDigit? {
        n, up := Finish(s, n, q, a, p, ds);
        return;
      }
      b, mlo, mhi := Advance(b, S, mlo, mhi, s, n, q, p, ds);
      n, ds := n + 1, ds + [CharOf(q)];
    }
  }
}
