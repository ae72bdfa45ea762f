/** Decimal digit strings, and the two ways `_dtoa_r` tidies the end of one. */
module Decimal {
  import opened Powers
  import opened Ctype

  function DigitOf(c: char): nat
    requires IsDigit(c)
  {
    c as int - '0' as int
  }

  function CharOf(d: nat): (c: char)
    requires d <= 9
    ensures IsDigit(c) && DigitOf(c) == d
  {
    '0' + d as char
  }

  /** Each digit character stands for its place. */
  lemma DigitPlaces(d: nat)
    requires d <= 9
    ensures CharOf(d) == "0123456789"[d] && IsDigit("0123456789"[d]) && DigitOf("0123456789"[d]) == d
  {
  }

  predicate AllDigits(s: seq<char>) {
    forall i :: 0 <= i < |s| ==> IsDigit(s[i])
  }

  /** The number a digit string denotes. */
  function Num(s: seq<char>): nat
    requires AllDigits(s)
  {
    if |s| == 0 then 0 else 10 * Num(s[..|s| - 1]) + DigitOf(s[|s| - 1])
  }

  lemma NoDigitsYet()
    ensures AllDigits([]) && Num([]) == 0
  {
  }

  lemma NumAppend(s: seq<char>, c: char)
    requires AllDigits(s) && IsDigit(c)
    ensures AllDigits(s + [c]) && Num(s + [c]) == 10 * Num(s) + DigitOf(c)
  {
    assert (s + [c])[..|s|] == s;
  }

  /** z trailing digits equal to d, as digits taken off an n-digit string. */
  ghost predicate EndsWith(s: seq<char>, n: nat, d: char)
    requires n <= |s|
  {
    forall i :: n <= i < |s| ==> s[i] == d
  }

  lemma Tenfold(a: nat, p: nat)
    ensures 10 * (a * p) == a * (10 * p)
  {
  }

  lemma {:induction false} TrailingZeros(s: seq<char>, n: nat)
    requires AllDigits(s) && n <= |s| && EndsWith(s, n, '0')
    ensures AllDigits(s[..n]) && Num(s) == Num(s[..n]) * Pow(10, |s| - n)
  {
    if n < |s| {
      var t := s[..|s| - 1];
      TrailingZeros(t, n);
      assert t[..n] == s[..n];
      Tenfold(Num(s[..n]), Pow(10, |t| - n));
    } else {
      assert s[..n] == s;
    }
  }

  lemma {:induction false} TrailingNines(s: seq<char>, n: nat)
    requires AllDigits(s) && n <= |s| && EndsWith(s, n, '9')
    ensures AllDigits(s[..n]) && Num(s) + 1 == (Num(s[..n]) + 1) * Pow(10, |s| - n)
  {
    if n < |s| {
      var t := s[..|s| - 1];
      TrailingNines(t, n);
      assert t[..n] == s[..n];
      Tenfold(Num(s[..n]) + 1, Pow(10, |t| - n));
    } else {
      assert s[..n] == s;
    }
  }

  /** Drops trailing zeros of s[..n]; the first digit stops the scan at the latest. */
  method StripZeros(s: array<char>, n: nat) returns (m: nat)
    requires 0 < n <= s.Length && AllDigits(s[..n]) && s[0] != '0'
    ensures 0 < m <= n && s[m - 1] != '0'
    ensures AllDigits(s[..m]) && Num(s[..n]) == Num(s[..m]) * Pow(10, n - m)
  {
    m := n - 1;
    while s[m] == '0'
      invariant 0 <= m < n
      invariant EndsWith(s[..n], m + 1, '0')
      decreases m
    {
      m := m - 1;
    }
    m := m + 1;
    TrailingZeros(s[..n], m);
    assert s[..n][..m] == s[..m];
  }

  /** One unit more in front of the trailing nines. */
  lemma UpBeforeNines(was: seq<char>, m: nat)
    requires AllDigits(was) && m < |was| && was[m] != '9' && EndsWith(was, m + 1, '9')
    ensures var up := was[..m] + [CharOf(DigitOf(was[m]) + 1)];
            AllDigits(up) && Num(up) * Pow(10, |was| - (m + 1)) == Num(was) + 1
  {
    hide Num, Pow, EndsWith;
    TrailingNines(was, m + 1);
    assert was[..m + 1] == was[..m] + [was[m]];
    NumAppend(was[..m], was[m]);
    NumAppend(was[..m], CharOf(DigitOf(was[m]) + 1));
  }

  /** Nothing but nines: one unit more is a 1, one place up. */
  lemma UpFromNines(was: seq<char>)
    requires AllDigits(was) && EndsWith(was, 0, '9')
    ensures AllDigits("1") && Num("1") * Pow(10, |was|) == Num(was) + 1
  {
    NumOne();
    TrailingNines(was, 0);
    assert was[..0] == [];
  }

  lemma NumOne()
    ensures Num([]) == 0 && Num("1") == 1 && Pow(10, 0) == 1
  {
    assert "1"[..0] == [];
  }

  /** Adds one unit in the last place of s[..n]; when every digit is 9 the result is "1", one place up. */
  method Roundoff(s: array<char>, n: nat) returns (m: nat, up: nat)
    requires 0 < n <= s.Length && AllDigits(s[..n])
    modifies s
    ensures 0 < m <= n && up <= 1 && AllDigits(s[..m]) && s[m - 1] != '0'
    ensures Num(s[..m]) * Pow(10, n + up - m) == old(Num(s[..n])) + 1
    ensures old(s[0]) != '0' ==> s[0] != '0'
    ensures up == 1 ==> m == 1
  {
    hide Num, Pow;
    ghost var was := s[..n];
    m := n - 1;
    while s[m] == '9'
      invariant 0 <= m < n && s[..n] == was
      invariant EndsWith(was, m + 1, '9')
      decreases m
    {
      if m == 0 {
        s[0] := '1';
        UpFromNines(was);
        assert s[..1] == "1";
        return 1, 1;
      }
      m := m - 1;
    }
    UpBeforeNines(was, m);
    s[m] := CharOf(DigitOf(s[m]) + 1);
    assert s[..m + 1] == was[..m] + [s[m]];
    return m + 1, 0;
  }
}
