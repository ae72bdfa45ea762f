/** `strtoul`: text to unsigned long, with the overflow test that never wraps. */
module Strtoul {
  import opened Powers
  import opened Ctype

  const ULONG_MAX: nat := 0xffff_ffff

  /** The digit a character stands for in any base, 36 or more for none. */
  function DigitValue(c: char): nat {
    if IsDigit(c) then c as int - '0' as int
    else if IsUpper(c) then c as int - 'A' as int + 10
    else if IsAlpha(c) then c as int - 'a' as int + 10
    else 36
  }

  /** Digits stand for their place among the digits and letters for theirs in the alphabet, ten further on,
      in either case. */
  lemma DigitAlphabet()
    ensures forall i :: 0 <= i < 10 ==> DigitValue("0123456789"[i]) == i
    ensures forall i :: 0 <= i < 26 ==> DigitValue("abcdefghijklmnopqrstuvwxyz"[i]) == 10 + i
    ensures forall i :: 0 <= i < 26 ==> DigitValue("ABCDEFGHIJKLMNOPQRSTUVWXYZ"[i]) == 10 + i
  {
  }

  /** Nothing else does. */
  lemma NoOtherDigit(c: char)
    requires c !in "0123456789" && c !in "abcdefghijklmnopqrstuvwxyz" && c !in "ABCDEFGHIJKLMNOPQRSTUVWXYZ"
    ensures DigitValue(c) == 36
  {
    ClassMembers(c);
  }

  /** Characters of a NUL-terminated string, the terminator included. */
  function CharAt(s: seq<char>, i: nat): char {
    if i < |s| then s[i] else '\0'
  }

  /** Contents of a string whose characters the class tables cover: 7-bit ones and, signed, the one that is -1. */
  predicate Plain(s: seq<char>) {
    forall i :: 0 <= i < |s| ==> '\0' < s[i] < 128 as char || s[i] == 255 as char
  }

  // What the text means.

  function SkipSpaces(s: seq<char>, i: nat): (j: nat)
    requires i <= |s|
    ensures i <= j <= |s| && !IsSpace(CharAt(s, j))
    ensures forall k :: i <= k < j ==> IsSpace(s[k])
    decreases |s| - i
  {
    if i < |s| && IsSpace(s[i]) then SkipSpaces(s, i + 1) else i
  }

  /** End of the longest run of base-b digits from i. */
  function RunEnd(s: seq<char>, i: nat, b: nat): (j: nat)
    requires i <= |s|
    ensures i <= j <= |s| && (j < |s| ==> DigitValue(s[j]) >= b)
    ensures forall k :: i <= k < j ==> DigitValue(s[k]) < b
    decreases |s| - i
  {
    if i < |s| && DigitValue(s[i]) < b then RunEnd(s, i + 1, b) else i
  }

  function NumBase(s: seq<char>, b: nat): nat {
    if |s| == 0 then 0 else b * NumBase(s[..|s| - 1], b) + DigitValue(s[|s| - 1])
  }

  /** Sign, base and first digit position, after blanks, sign and base prefix. */
  datatype Head = Head(neg: bool, base: nat, start: nat, prefixed: bool)

  function ReadHead(s: seq<char>, base: nat): (h: Head)
    ensures h.start <= |s|
    ensures h.base == if base != 0 then base else h.base
    ensures base == 0 ==> h.base == 8 || h.base == 10 || h.base == 16
    ensures h.prefixed ==> h.start >= 2 && h.base == 16
  {
    var i := SkipSpaces(s, 0);
    var signed := CharAt(s, i) == '-' || CharAt(s, i) == '+';
    var j := if signed then i + 1 else i;
    var neg := CharAt(s, i) == '-';
    if (base == 0 || base == 16) && CharAt(s, j) == '0' && (CharAt(s, j + 1) == 'x' || CharAt(s, j + 1) == 'X')
    then Head(neg, 16, j + 2, true)
    else Head(neg, if base != 0 then base else if CharAt(s, j) == '0' then 8 else 10, j, false)
  }

  /** The number after the head, however large. */
  function Magnitude(s: seq<char>, base: nat): nat {
    var h := ReadHead(s, base);
    NumBase(s[h.start..RunEnd(s, h.start, h.base)], h.base)
  }

  /** Saturating above, negated modulo 2^32 after a minus sign. */
  function Value(s: seq<char>, base: nat): (v: nat)
    ensures v <= ULONG_MAX
  {
    var m := Magnitude(s, base);
    if m > ULONG_MAX then ULONG_MAX
    else if ReadHead(s, base).neg then (ULONG_MAX + 1 - m) % (ULONG_MAX + 1) else m
  }

  /** Where reading stopped, or the start of the string when there was no digit. */
  function End(s: seq<char>, base: nat): nat {
    var h := ReadHead(s, base);
    var j := RunEnd(s, h.start, h.base);
    if j > h.start then j else 0
  }

  // The overflow test.

  lemma OverflowTest(acc: nat, b: nat, c: nat)
    requires b > 0 && c < b && acc <= ULONG_MAX
    ensures acc > ULONG_MAX / b || (acc == ULONG_MAX / b && c > ULONG_MAX % b) <==> b * acc + c > ULONG_MAX
  {
    var q, r := ULONG_MAX / b, ULONG_MAX % b;
    QuotientParts(b);
    if acc > q {
      MulMono(b, q + 1, acc);
    } else if acc < q {
      MulMono(b, acc + 1, q);
      MulAddOne(b, acc);
    }
    MulAddOne(b, q);
  }

  lemma QuotientParts(b: nat)
    requires b > 0
    ensures ULONG_MAX == b * (ULONG_MAX / b) + ULONG_MAX % b && ULONG_MAX % b < b
  {
  }

  lemma RunExtend(s: seq<char>, i: nat, j: nat, b: nat)
    requires i <= j < |s|
    ensures NumBase(s[i..j + 1], b) == b * NumBase(s[i..j], b) + DigitValue(s[j])
  {
    assert s[i..j + 1][..j - i] == s[i..j];
  }

  lemma NumNone(b: nat)
    ensures NumBase([], b) == 0
  {
  }

  /** The run ends at the first character that is no digit of the base. */
  lemma {:induction false} RunEndIs(s: seq<char>, i: nat, j: nat, b: nat)
    requires i <= j <= |s| && forall k :: i <= k < j ==> DigitValue(s[k]) < b
    requires j < |s| ==> DigitValue(s[j]) >= b
    ensures RunEnd(s, i, b) == j
    decreases j - i
  {
    if i < j {
      RunEndIs(s, i + 1, j, b);
    }
  }

  /** Blanks, sign and base prefix; s is the position after the first character c to convert. */
  method ScanHead(S: seq<char>, anyBase: nat) returns (neg: bool, base: nat, c: char, s: nat)
    requires anyBase == 0 || 2 <= anyBase <= 36
    ensures s > 0 && c == CharAt(S, s - 1) && 2 <= base <= 36
    ensures var h := ReadHead(S, anyBase); h.neg == neg && h.base == base && h.start == s - 1
  {
    base, s, neg := anyBase, 0, false;
    c := CharAt(S, s);
    s := s + 1;
    while IsSpace(c)
      invariant 0 < s <= |S| + 1 && c == CharAt(S, s - 1)
      invariant SkipSpaces(S, s - 1) == SkipSpaces(S, 0)
      decreases |S| + 1 - s
    {
      c := CharAt(S, s);
      s := s + 1;
    }
    if c == '-' {
      neg := true;
      c := CharAt(S, s);
      s := s + 1;
    } else if c == '+' {
      c := CharAt(S, s);
      s := s + 1;
    }
    if (base == 0 || base == 16) && c == '0' && (CharAt(S, s) == 'x' || CharAt(S, s) == 'X') {
      c := CharAt(S, s + 1);
      s := s + 2;
      base := 16;
    }
    if base == 0 {
      base := if c == '0' then 8 else 10;
    }
  }

  /** The value of a character in the conversion loop, or no value. */
  method ConvertDigit(c: char) returns (d: int, ok: bool)
    ensures ok ==> d == DigitValue(c)
    ensures !ok ==> DigitValue(c) == 36
    ensures c == '\0' ==> !ok
  {
    d, ok := c as int, true;
    if IsDigit(c) {
      d := d - '0' as int;
    } else if IsAlpha(c) {
      d := d - (if IsUpper(c) then 'A' as int - 10 else 'a' as int - 10);
    } else {
      ok := false;
    }
  }

  /** One digit into the accumulator, or the sticky overflow mark; n is the value so far. */
  method AddDigit(any0: int, acc0: nat, base: nat, d: nat, cutoff: nat, cutlim: nat, ghost n: nat)
    returns (any: int, acc: nat)
    requires base > 0 && d < base && cutoff == ULONG_MAX / base && cutlim == ULONG_MAX % base
    requires any0 >= 0 ==> acc0 == n <= ULONG_MAX
    requires any0 < 0 ==> n > ULONG_MAX
    ensures any == 1 || any == -1
    ensures any == 1 ==> acc == base * n + d <= ULONG_MAX
    ensures any == -1 ==> base * n + d > ULONG_MAX
  {
    any, acc := any0, acc0;
    Overflow(base, n, d);
    if any < 0 || acc > cutoff || (acc == cutoff && d > cutlim) {
      any := -1;
    } else {
      any := 1;
      acc := acc * base;
      acc := acc + d;
    }
  }

  /** One digit more: a value already too large stays so, otherwise the test decides. */
  lemma Overflow(b: nat, n: nat, d: nat)
    requires b > 0 && d < b
    ensures n > ULONG_MAX ==> b * n + d > ULONG_MAX
    ensures n <= ULONG_MAX ==>
              (n > ULONG_MAX / b || (n == ULONG_MAX / b && d > ULONG_MAX % b) <==> b * n + d > ULONG_MAX)
  {
    if n > ULONG_MAX {
      MulMono(n, 1, b);
    } else {
      OverflowTest(n, b, d);
    }
  }

  // The subject sequence of the standard.

  /** Digits of base b, at least one. */
  predicate Numerals(t: seq<char>, b: nat) {
    |t| > 0 && forall k :: 0 <= k < |t| ==> DigitValue(t[k]) < b
  }

  predicate HexForm(t: seq<char>) {
    |t| > 2 && t[0] == '0' && (t[1] == 'x' || t[1] == 'X') && Numerals(t[2..], 16)
  }

  /** A number without sign: for base 0 a decimal, octal or hexadecimal constant, otherwise digits of the base,
      with 0x or 0X allowed in front in base 16. */
  predicate NumberForm(t: seq<char>, base: nat) {
    if base == 0 then
      (Numerals(t, 10) && t[0] != '0') || (Numerals(t, 8) && t[0] == '0') || HexForm(t)
    else
      Numerals(t, base) || (base == 16 && HexForm(t))
  }

  predicate IsSign(c: char) {
    c == '+' || c == '-'
  }

  /** The expected form: a number, with a sign in front or without. */
  predicate ExpectedForm(t: seq<char>, base: nat) {
    NumberForm(t, base) || (|t| > 0 && IsSign(t[0]) && NumberForm(t[1..], base))
  }

  /** The characters from the first one that is no white space up to j are of the expected form. */
  predicate SubjectTo(s: seq<char>, base: nat, j: nat) {
    var i := SkipSpaces(s, 0);
    i <= j <= |s| && ExpectedForm(s[i..j], base)
  }

  /** j is where the longest subject sequence ends, or 0 when there is none. */
  ghost predicate IsoEnd(s: seq<char>, base: nat, j: nat) {
    if exists k: nat :: SubjectTo(s, base, k) then
      SubjectTo(s, base, j) && forall k: nat :: SubjectTo(s, base, k) ==> k <= j
    else
      j == 0
  }

  /** What the subject sequence denotes, without its sign. */
  function SubjectValue(t: seq<char>, base: nat): nat {
    if |t| > 0 && IsSign(t[0]) then NumberValue(t[1..], base) else NumberValue(t, base)
  }

  function NumberValue(t: seq<char>, base: nat): nat {
    if (base == 0 || base == 16) && HexForm(t) then NumBase(t[2..], 16)
    else if base == 0 then NumBase(t, if |t| > 0 && t[0] == '0' then 8 else 10)
    else NumBase(t, base)
  }

  // Where the standard and the code part.

  /** Position after blanks and sign. */
  function NumberStart(s: seq<char>): (u: nat)
    ensures SkipSpaces(s, 0) <= u <= |s|
  {
    var i := SkipSpaces(s, 0);
    if i < |s| && IsSign(s[i]) then i + 1 else i
  }

  /** A base prefix that no hexadecimal digit follows. */
  predicate BarePrefix(s: seq<char>, base: nat) {
    var u := NumberStart(s);
    && (base == 0 || base == 16)
    && CharAt(s, u) == '0' && (CharAt(s, u + 1) == 'x' || CharAt(s, u + 1) == 'X')
    && DigitValue(CharAt(s, u + 2)) >= 16
  }

  /** A sign is no part of a number, so the subject is a number behind the sign. */
  lemma SubjectBehindSign(s: seq<char>, base: nat, j: nat)
    requires base == 0 || 2 <= base <= 36
    ensures SubjectTo(s, base, j) <==> NumberStart(s) <= j <= |s| && NumberForm(s[NumberStart(s)..j], base)
  {
    var i, u := SkipSpaces(s, 0), NumberStart(s);
    if i < j <= |s| {
      var t := s[i..j];
      assert u == i + 1 ==> t[1..] == s[u..j];
      assert t[0] == s[i];
      assert IsSign(t[0]) ==> DigitValue(t[0]) == 36;
    }
  }

  /** Digits reach no further than the run of digits. */
  lemma NumeralsEnd(s: seq<char>, u: nat, j: nat, b: nat)
    requires u <= j <= |s|
    ensures Numerals(s[u..j], b) <==> u < j <= RunEnd(s, u, b)
  {
    var e := RunEnd(s, u, b);
    if e < j {
      assert DigitValue(s[u..j][e - u]) >= b;
    }
  }

  lemma HexFormEnd(s: seq<char>, u: nat, j: nat)
    requires u <= j <= |s|
    ensures HexForm(s[u..j]) <==>
            u + 2 < j && s[u] == '0' && (s[u + 1] == 'x' || s[u + 1] == 'X') && j <= RunEnd(s, u + 2, 16)
  {
    if u + 2 < j {
      assert s[u..j][2..] == s[u + 2..j];
      NumeralsEnd(s, u + 2, j, 16);
    }
  }

  /** Where numbers from the number's start can end, by what `strtoul` reads as the head. */
  lemma NumberEnds(s: seq<char>, base: nat, j: nat)
    requires base == 0 || 2 <= base <= 36
    requires NumberStart(s) <= j <= |s|
    ensures var (u, h) := (NumberStart(s), ReadHead(s, base));
            NumberForm(s[u..j], base) <==>
            if h.prefixed then j == u + 1 || h.start < j <= RunEnd(s, h.start, 16)
            else u < j <= RunEnd(s, u, h.base)
  {
    HeadAfterSign(s, base);
    if ReadHead(s, base).prefixed {
      PrefixedEnds(s, base, NumberStart(s), j);
    } else {
      PlainEnds(s, base, NumberStart(s), j);
    }
  }

  /** After a base prefix: the lone 0, or the prefix and hexadecimal digits. */
  lemma PrefixedEnds(s: seq<char>, base: nat, u: nat, j: nat)
    requires base == 0 || base == 16
    requires u + 1 < |s| && s[u] == '0' && (s[u + 1] == 'x' || s[u + 1] == 'X') && u <= j <= |s|
    ensures NumberForm(s[u..j], base) <==> j == u + 1 || u + 2 < j <= RunEnd(s, u + 2, 16)
  {
    HexFormEnd(s, u, j);
    NumeralsEnd(s, u, j, 8);
    NumeralsEnd(s, u, j, 10);
    NumeralsEnd(s, u, j, 16);
    ZeroOnly(s, u, 8);
    ZeroOnly(s, u, 16);
    assert u < j ==> s[u..j][0] == s[u];
    hide RunEnd, Numerals, HexForm;
  }

  /** Without one: digits of the base asked for or shown. */
  lemma PlainEnds(s: seq<char>, base: nat, u: nat, j: nat)
    requires (base == 0 || 2 <= base <= 36) && u <= j <= |s|
    requires !((base == 0 || base == 16) && CharAt(s, u) == '0' && (CharAt(s, u + 1) == 'x' || CharAt(s, u + 1) == 'X'))
    ensures NumberForm(s[u..j], base) <==>
            u < j <= RunEnd(s, u, if base != 0 then base else if CharAt(s, u) == '0' then 8 else 10)
  {
    HexFormEnd(s, u, j);
    NumeralsEnd(s, u, j, 8);
    NumeralsEnd(s, u, j, 10);
    NumeralsEnd(s, u, j, base);
    assert u < j ==> s[u..j][0] == s[u];
    hide RunEnd, Numerals, HexForm;
  }

  /** Before an x a run of digits is just the 0. */
  lemma ZeroOnly(s: seq<char>, u: nat, b: nat)
    requires u + 1 < |s| && s[u] == '0' && (s[u + 1] == 'x' || s[u + 1] == 'X') && 0 < b <= 16
    ensures RunEnd(s, u, b) == u + 1
  {
    assert RunEnd(s, u + 1, b) == u + 1;
  }

  lemma HeadAfterSign(s: seq<char>, base: nat)
    requires base == 0 || 2 <= base <= 36
    ensures var (u, h) := (NumberStart(s), ReadHead(s, base));
            && (h.prefixed <==> (base == 0 || base == 16) && CharAt(s, u) == '0'
                                && (CharAt(s, u + 1) == 'x' || CharAt(s, u + 1) == 'X'))
            && (h.prefixed ==> u + 1 < |s| && h.start == u + 2 && h.base == 16)
            && (!h.prefixed ==> h.start == u
                                && h.base == if base != 0 then base else if CharAt(s, u) == '0' then 8 else 10)
  {
  }

  lemma BareRun(s: seq<char>, base: nat)
    requires base == 0 || 2 <= base <= 36
    ensures var h := ReadHead(s, base);
            BarePrefix(s, base) <==> h.prefixed && RunEnd(s, h.start, h.base) == h.start
  {
    HeadAfterSign(s, base);
  }

  /** The subject sequences, by what `strtoul` reads: those that end in the run of digits, and after a prefix
      the lone 0. */
  lemma SubjectEnds(s: seq<char>, base: nat, j: nat)
    requires base == 0 || 2 <= base <= 36
    ensures var (u, h) := (NumberStart(s), ReadHead(s, base));
            SubjectTo(s, base, j) <==>
              if h.prefixed then j == u + 1 || h.start < j <= RunEnd(s, h.start, h.base)
              else u < j <= RunEnd(s, h.start, h.base)
  {
    HeadAfterSign(s, base);
    SubjectBehindSign(s, base, j);
    if NumberStart(s) <= j <= |s| {
      NumberEnds(s, base, j);
    }
  }

  /** The longest of them. */
  lemma LongestSubject(s: seq<char>, base: nat) returns (j: nat)
    requires base == 0 || 2 <= base <= 36
    ensures var (u, h) := (NumberStart(s), ReadHead(s, base));
            var e := RunEnd(s, h.start, h.base);
            j == if e > h.start then e else if h.prefixed then u + 1 else 0
    ensures forall k: nat :: IsoEnd(s, base, k) <==> k == j
    ensures (exists k: nat :: SubjectTo(s, base, k)) <==> j > 0
  {
    var u, h := NumberStart(s), ReadHead(s, base);
    HeadAfterSign(s, base);
    var e := RunEnd(s, h.start, h.base);
    j := if e > h.start then e else if h.prefixed then u + 1 else 0;
    forall k: nat ensures SubjectTo(s, base, k) ==> k <= j && j > 0 {
      SubjectEnds(s, base, k);
    }
    SubjectEnds(s, base, j);
  }

  /** The end pointer is the standard's exactly unless a base prefix stands bare; then the standard's is
      just past its 0. */
  lemma EndConforms(s: seq<char>, base: nat)
    requires base == 0 || 2 <= base <= 36
    ensures IsoEnd(s, base, End(s, base)) <==> !BarePrefix(s, base)
    ensures BarePrefix(s, base) ==> IsoEnd(s, base, NumberStart(s) + 1)
  {
    var j := LongestSubject(s, base);
    BareRun(s, base);
    HeadAfterSign(s, base);
    hide IsoEnd, BarePrefix, ReadHead, RunEnd, NumberStart;
  }

  lemma SubjectValueBehindSign(s: seq<char>, base: nat, j: nat)
    requires SkipSpaces(s, 0) <= NumberStart(s) < j <= |s| && !IsSign(s[NumberStart(s)])
    ensures SubjectValue(s[SkipSpaces(s, 0)..j], base) == NumberValue(s[NumberStart(s)..j], base)
  {
    var i, u := SkipSpaces(s, 0), NumberStart(s);
    if u == i + 1 {
      assert s[i..j][1..] == s[u..j];
    }
  }

  lemma LoneZero(t: seq<char>, b: nat)
    requires t == "0"
    ensures NumBase(t, b) == 0
  {
    assert t[..0] == [] && b * 0 == 0;
  }

  /** The number the standard reads when its subject sequence ends at j: the sequence's, none as 0; the largest one
      when that is too large; negated modulo 2^32 when the sequence begins with a minus. */
  ghost function IsoValue(s: seq<char>, base: nat, j: nat): nat
    requires (base == 0 || 2 <= base <= 36) && IsoEnd(s, base, j)
  {
    if exists k: nat :: SubjectTo(s, base, k) then
      var t := s[SkipSpaces(s, 0)..j];
      var m := SubjectValue(t, base);
      if m > 0xffff_ffff then 0xffff_ffff else if t[0] == '-' then (0x1_0000_0000 - m) % 0x1_0000_0000 else m
    else 0
  }

  /** The magnitude read is that of the standard's subject sequence in every case. */
  lemma MagnitudeConforms(s: seq<char>, base: nat, j: nat)
    requires base == 0 || 2 <= base <= 36
    requires IsoEnd(s, base, j)
    ensures Magnitude(s, base) ==
            if exists k: nat :: SubjectTo(s, base, k) then SubjectValue(s[SkipSpaces(s, 0)..j], base) else 0
  {
    var longest := LongestSubject(s, base);
    HeadAfterSign(s, base);
    if j > 0 {
      SubjectRead(s, base, j);
    } else {
      NumNone(ReadHead(s, base).base);
      assert s[NumberStart(s)..NumberStart(s)] == [];
    }
  }

  /** No number is empty, so a subject sequence has a first character, and the minus is there or nowhere. */
  lemma SubjectSign(s: seq<char>, base: nat, j: nat)
    requires base == 0 || 2 <= base <= 36
    requires SubjectTo(s, base, j)
    ensures SkipSpaces(s, 0) < j
    ensures ReadHead(s, base).neg <==> s[SkipSpaces(s, 0)..j][0] == '-'
  {
    var i := SkipSpaces(s, 0);
    assert i < j;
    assert s[i..j][0] == CharAt(s, i);
    hide ExpectedForm, SkipSpaces;
  }

  /** And with it the value, whatever the sign and the size. */
  lemma ValueConforms(s: seq<char>, base: nat, j: nat)
    requires base == 0 || 2 <= base <= 36
    requires IsoEnd(s, base, j)
    ensures Value(s, base) == IsoValue(s, base, j)
  {
    hide SubjectTo, SubjectValue, ReadHead, Magnitude, SkipSpaces;
    MagnitudeConforms(s, base, j);
    if exists k: nat :: SubjectTo(s, base, k) {
      SubjectSign(s, base, j);
    }
  }

  lemma SubjectRead(s: seq<char>, base: nat, j: nat)
    requires base == 0 || 2 <= base <= 36
    requires var (u, h) := (NumberStart(s), ReadHead(s, base));
             var e := RunEnd(s, h.start, h.base);
             j > 0 && j == if e > h.start then e else if h.prefixed then u + 1 else 0
    ensures Magnitude(s, base) == SubjectValue(s[SkipSpaces(s, 0)..j], base)
  {
    var u, h := NumberStart(s), ReadHead(s, base);
    var e := RunEnd(s, h.start, h.base);
    HeadAfterSign(s, base);
    assert Magnitude(s, base) == NumBase(s[h.start..e], h.base);
    assert u < j <= |s| && !IsSign(s[u]) by {
      NumberBegins(s, u, h.base);
    }
    SubjectValueBehindSign(s, base, j);
    hide Magnitude, ReadHead, NumberStart, SkipSpaces, NumBase, HexForm, SubjectValue, NumberValue, DigitValue;
    NumberRead(s, base, u, h, j);
  }

  lemma NumberRead(s: seq<char>, base: nat, u: nat, h: Head, j: nat)
    requires u < j <= |s| && h.start <= |s|
    requires h.prefixed <==> (base == 0 || base == 16) && CharAt(s, u) == '0'
                             && (CharAt(s, u + 1) == 'x' || CharAt(s, u + 1) == 'X')
    requires h.prefixed ==> u + 1 < |s| && h.start == u + 2 && h.base == 16
    requires !h.prefixed ==> h.start == u
                             && h.base == if base != 0 then base else if CharAt(s, u) == '0' then 8 else 10
    requires var e := RunEnd(s, h.start, h.base);
             j == (if e > h.start then e else u + 1) && (e > h.start || h.prefixed)
    ensures NumberValue(s[u..j], base) == NumBase(s[h.start..RunEnd(s, h.start, h.base)], h.base)
  {
    hide RunEnd, NumBase, NumberValue;
    var e := RunEnd(s, h.start, h.base);
    if h.prefixed && e > h.start {
      PrefixedValue(s, base, u, j);
    } else if h.prefixed {
      BareValue(s, base, u);
      assert s[h.start..e] == [];
      NumNone(16);
    } else {
      PlainValue(s, base, u, j);
    }
  }

  lemma NumberBegins(s: seq<char>, u: nat, b: nat)
    requires u < |s| && b <= 36 && (s[u] == '0' || RunEnd(s, u, b) > u)
    ensures !IsSign(s[u])
  {
  }

  lemma PrefixedValue(s: seq<char>, base: nat, u: nat, j: nat)
    requires (base == 0 || base == 16) && u + 2 < j <= |s| && j <= RunEnd(s, u + 2, 16)
    requires s[u] == '0' && (s[u + 1] == 'x' || s[u + 1] == 'X')
    ensures NumberValue(s[u..j], base) == NumBase(s[u + 2..j], 16)
  {
    HexFormEnd(s, u, j);
    assert s[u..j][2..] == s[u + 2..j];
  }

  lemma BareValue(s: seq<char>, base: nat, u: nat)
    requires u < |s| && s[u] == '0'
    ensures NumberValue(s[u..u + 1], base) == 0
  {
    assert s[u..u + 1] == "0";
    LoneZero(s[u..u + 1], 8);
    LoneZero(s[u..u + 1], base);
  }

  lemma PlainValue(s: seq<char>, base: nat, u: nat, j: nat)
    requires u < j <= |s|
    requires !((base == 0 || base == 16) && CharAt(s, u) == '0' && (CharAt(s, u + 1) == 'x' || CharAt(s, u + 1) == 'X'))
    ensures NumberValue(s[u..j], base) ==
            NumBase(s[u..j], if base != 0 then base else if CharAt(s, u) == '0' then 8 else 10)
  {
    HexFormEnd(s, u, j);
    assert s[u..j][0] == s[u];
  }

  lemma Conforms(s: seq<char>, base: nat)
    requires base == 0 || 2 <= base <= 36
    ensures forall j: nat :: IsoEnd(s, base, j) ==> Value(s, base) == IsoValue(s, base, j)
    ensures IsoEnd(s, base, End(s, base)) <==> !BarePrefix(s, base)
  {
    forall j: nat | IsoEnd(s, base, j) ensures Value(s, base) == IsoValue(s, base, j) {
      ValueConforms(s, base, j);
    }
    EndConforms(s, base);
  }

  /** The number at the beginning of S and where it ends: the value is always the standard's, the end unless a base
      prefix stands bare. */
  method Strtoul(S: seq<char>, anyBase: nat) returns (acc: nat, endptr: nat)
    requires anyBase == 0 || 2 <= anyBase <= 36
    requires Plain(S)
    ensures acc == Value(S, anyBase) && endptr == End(S, anyBase)
    ensures forall j: nat :: IsoEnd(S, anyBase, j) ==> acc == IsoValue(S, anyBase, j)
    ensures IsoEnd(S, anyBase, endptr) <==> !BarePrefix(S, anyBase)
  {
    hide NumBase, ReadHead, RunEnd, SkipSpaces, IsoEnd, IsoValue, BarePrefix, DigitValue;
    var neg, base, c, s := ScanHead(S, anyBase);
    ghost var start := s - 1;
    NumNone(base);
    assert S[start..s - 1] == [];
    var cutoff, cutlim := ULONG_MAX / base, ULONG_MAX % base;
    var any := 0;
    acc := 0;
    while true
      invariant start < s <= |S| + 1 && c == CharAt(S, s - 1)
      invariant forall k :: start <= k < s - 1 ==> DigitValue(S[k]) < base
      invariant any == 0 <==> s - 1 == start
      invariant -1 <= any <= 1
      invariant any >= 0 ==> acc == NumBase(S[start..s - 1], base) <= ULONG_MAX
      invariant any < 0 ==> NumBase(S[start..s - 1], base) > ULONG_MAX
      decreases |S| + 1 - s
    {
      var d, ok := ConvertDigit(c);
      if !ok || d >= base {
        break;
      }
      RunExtend(S, start, s - 1, base);
      any, acc := AddDigit(any, acc, base, d, cutoff, cutlim, NumBase(S[start..s - 1], base));
      c := CharAt(S, s);
      s := s + 1;
    }
    RunEndIs(S, start, s - 1, base);
    if any < 0 {
      acc := ULONG_MAX;
    } else if neg {
      acc := (ULONG_MAX + 1 - acc) % (ULONG_MAX + 1);
    }
    endptr := if any != 0 then s - 1 else 0;
    Conforms(S, anyBase);
  }

  /** In "0xg" the standard reads a 0, and the code reads nothing. */
  lemma BareInput()
    ensures BarePrefix("0xg", 16) && Value("0xg", 16) == 0 && End("0xg", 16) == 0
    ensures IsoEnd("0xg", 16, 1) && !IsoEnd("0xg", 16, End("0xg", 16))
  {
    var s := "0xg";
    assert SkipSpaces(s, 0) == 0;
    assert ReadHead(s, 16) == Head(false, 16, 2, true);
    assert RunEnd(s, 2, 16) == 2;
    assert s[2..2] == [];
    EndConforms(s, 16);
  }
}
