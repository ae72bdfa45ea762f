/** Fixed-count digit generation with round-half-even (modes 2 and 3 of `_dtoa_r`). */
module FixedDigits {
  import opened Powers
  import opened Bigints
  import opened Mprec
  import opened Decimal
  import opened FreeFormat
  import opened FreeDigits

  /** D is num/den rounded to the nearest integer, ties going to the even one. */
  ghost predicate IsHalfEven(num: nat, den: nat, D: nat) {
    var off: int := 2 * (D * den - num);
    var tie: int := den;
    -tie <= off <= tie && (off == tie || off == -tie ==> D % 2 == 0)
  }

  /** There is only one such integer. */
  lemma HalfEvenUnique(num: nat, den: nat, D: nat, E: nat)
    requires den > 0 && IsHalfEven(num, den, D) && IsHalfEven(num, den, E)
    ensures D == E
  {
    Multiples(den, D, E);
    Multiples(den, E, D);
  }

  /** n digits D are out; c is what remains, ten times too large for the next digit. */
  ghost predicate Partial(b: nat, S: nat, n: nat, D: nat, c: nat) {
    S > 0 && At(b, n + 1) == 10 * (D * S) + c && c < 10 * S && (n == 0 ==> D == 0 && c >= S)
  }

  lemma PartialNext(b: nat, S: nat, n: nat, D: nat, c: nat, q: nat, r: nat)
    requires Partial(b, S, n, D, c) && Divides(c, S, q, r)
    ensures At(b, n + 1) == (10 * D + q) * S + r && r < S
    ensures n == 0 ==> q > 0
    ensures Partial(b, S, n + 1, 10 * D + q, 10 * r)
  {
    Combine(D, S, q);
    AtNext(b, n + 1);
  }

  /** Rounding on the remainder and the parity of the last digit. */
  lemma RoundByRemainder(num: nat, S: nat, D: nat, q: nat, r: nat, up: bool)
    requires num == (10 * D + q) * S + r && r < S
    requires up == (2 * r > S || (2 * r == S && q % 2 == 1))
    ensures IsHalfEven(num, S, 10 * D + q + (if up then 1 else 0))
  {
    MulAddOne(S, 10 * D + q);
  }

  /** Working state of the loop. */
  ghost predicate FixedState(b: Bigint, S: Bigint, b0: nat, n: nat, D: nat)
    reads b, b.x, S, S.x
  {
    && b.Valid() && b.x.Length > 1 && Aligned(S) && b != S && b.x != S.x
    && Partial(b0, S.Value(), n, D, b.Value())
  }

  /** One quotient digit; what it leaves is the state for the next, or the remainder to round on. */
  method FixedStep(b: Bigint, S: Bigint, ghost b0: nat, ghost n: nat, ghost D: nat) returns (q: nat)
    requires FixedState(b, S, b0, n, D)
    modifies b`wds, b.x
    ensures b.Valid() && q <= 9 && (n == 0 ==> q > 0)
    ensures At(b0, n + 1) == (10 * D + q) * S.Value() + b.Value() && b.Value() < S.Value()
    ensures Partial(b0, S.Value(), n + 1, 10 * D + q, 10 * b.Value())
  {
    hide At;
    ghost var c := b.Value();
    q := Quorem(b, S);
    PartialNext(b0, S.Value(), n, D, c, q, b.Value());
  }

  /** ilim digits of b0/S, unrounded, and the remainder. */
  method Digits(b1: Bigint, S: Bigint, ilim: nat, s: array<char>, ghost b0: nat)
    returns (b: Bigint, dig: nat, ghost D: nat)
    requires 0 < ilim <= s.Length && FixedState(b1, S, b0, 0, 0)
    modifies b1`wds, b1.x, s
    ensures b.Valid() && b.x.Length > 1 && S.Valid() && S.Value() == old(S.Value()) && S.wds > 0
    ensures AllDigits(s[..ilim]) && s[0] != '0' && Num(s[..ilim]) == 10 * D + dig && dig <= 9
    ensures At(b0, ilim) == (10 * D + dig) * S.Value() + b.Value() && b.Value() < S.Value()
  {
    hide Partial, At, Val, Num;
    NoDigitsYet();
    b := b1;
    ghost var sv := S.Value();
    ghost var ds := [];
    D := 0;
    var i := 1;
    while true
      invariant b == b1 || (fresh(b) && fresh(b.x))
      invariant 1 <= i <= ilim && |ds| == i - 1 && s[..i - 1] == ds && AllDigits(ds)
      invariant i > 1 ==> ds[0] != '0'
      invariant D == Num(ds) && S.Value() == sv
      invariant FixedState(b, S, b0, i - 1, D)
      decreases ilim - i
    {
      dig := FixedStep(b, S, b0, i - 1, D);
      NumAppend(ds, CharOf(dig));
      PutDigit(s, i - 1, dig, ds);
      ds := ds + [CharOf(dig)];
      if i >= ilim {
        return;
      }
      D := 10 * D + dig;
      b := MultAdd(b, 10, 0);
      i := i + 1;
    }
  }

  /** The rounded digits: at most ilim of them, and one place up when a carry runs off the front. */
  method Fixed(b1: Bigint, S: Bigint, ilim: nat, s: array<char>, ghost b0: nat)
    returns (m: nat, up: nat)
    requires 0 < ilim <= s.Length && FixedState(b1, S, b0, 0, 0)
    modifies b1`wds, b1.x, s
    ensures 0 < m <= ilim && up <= 1 && AllDigits(s[..m]) && s[0] != '0' && s[m - 1] != '0'
    ensures IsHalfEven(At(b0, ilim), old(S.Value()), Num(s[..m]) * Pow(10, ilim + up - m))
    ensures up == 1 ==> m == 1
  {
    hide At, Partial, Val, IsHalfEven, Num;
    var b, dig;
    ghost var D;
    b, dig, D := Digits(b1, S, ilim, s, b0);
    var j := CompareHalf(b, S);
    RoundByRemainder(At(b0, ilim), S.Value(), D, dig, b.Value(), j > 0 || (j == 0 && dig % 2 == 1));
    if j > 0 || (j == 0 && dig % 2 == 1) {
      m, up := Roundoff(s, ilim);
    } else {
      m := StripZeros(s, ilim);
      up := 0;
    }
  }
}
