/** Numbers printed by `_vfprintf_r` are read back by `strtoul`. */
module RoundTrip {
  import opened Powers
  import opened Ctype
  import opened Strtoul
  import opened Format

  // Digit strings denote what they were made from.

  lemma {:induction false} DigitsValue(u: nat, b: nat, upper: bool)
    requires 2 <= b <= 16
    ensures NumBase(Digits(u, b, upper), b) == u
    decreases u
  {
    if u < b {
      assert [DigitChar(u, upper)][..0] == [] && b * 0 == 0;
    } else {
      Quotient(u, b);
      DigitsValue(u / b, b, upper);
      var t := Digits(u / b, b, upper);
      assert (t + [DigitChar(u % b, upper)])[..|t|] == t;
    }
  }

  lemma {:induction false} LeadingZeroes(n: nat, s: seq<char>, b: nat)
    ensures NumBase(Rep('0', n) + s, b) == NumBase(s, b)
    decreases |s|, n
  {
    var z := Rep('0', n);
    if |s| > 0 {
      var t := s[..|s| - 1];
      assert (z + s)[..|z + s| - 1] == z + t;
      LeadingZeroes(n, t, b);
    } else if n > 0 {
      assert z + s == Rep('0', n - 1) + "0";
      assert (Rep('0', n - 1) + "0")[..n - 1] == Rep('0', n - 1) + [];
      LeadingZeroes(n - 1, [], b);
      assert b * 0 == 0;
    } else {
      assert z + s == [];
    }
  }

  lemma {:induction false} SkipBlanks(t: seq<char>, i: nat, p: nat)
    requires i <= p <= |t| && (forall k :: i <= k < p ==> t[k] == ' ') && !IsSpace(CharAt(t, p))
    ensures SkipSpaces(t, i) == p
    decreases p - i
  {
    if i < p {
      SkipBlanks(t, i + 1, p);
    }
  }

  /** Blanks, an optional sign, an optional hexadecimal prefix, digits of base b, blanks. */
  ghost predicate Numeral(t: seq<char>, p: nat, sign: seq<char>, pre: seq<char>, ds: seq<char>, m: nat, b: nat) {
    && t == Rep(' ', p) + sign + pre + ds + Rep(' ', m)
    && (sign == [] || sign == "+" || sign == "-")
    && (pre == [] || ((pre == "0x" || pre == "0X") && b == 16 && |ds| > 0))
    && forall i :: 0 <= i < |ds| ==> DigitValue(ds[i]) < b
  }

  /** The base `strtoul` settles on: the one asked for, or the one the text shows. */
  predicate Settles(base: nat, pre: seq<char>, ds: seq<char>, b: nat) {
    && 2 <= b <= 16
    && (base == b || (base == 0 && b == if pre != [] then 16 else if |ds| > 0 && ds[0] == '0' then 8 else 10))
  }

  /** Where the parts of a numeral are. */
  lemma Positions(t: seq<char>, p: nat, sign: seq<char>, pre: seq<char>, ds: seq<char>, m: nat, b: nat)
    requires Numeral(t, p, sign, pre, ds, m, b)
    ensures |sign| <= 1 && |t| == p + |sign| + |pre| + |ds| + m
    ensures forall k :: 0 <= k < p ==> t[k] == ' '
    ensures |sign| > 0 ==> t[p] == sign[0]
    ensures pre != [] ==> t[p + |sign|] == '0' && t[p + |sign| + 1] == pre[1]
    ensures forall k :: 0 <= k < |ds| ==> t[p + |sign| + |pre| + k] == ds[k]
    ensures forall k :: p + |sign| + |pre| + |ds| <= k < |t| ==> t[k] == ' '
  {
    hide DigitValue;
    PartsOf(t, Rep(' ', p), sign, pre, ds, Rep(' ', m));
  }

  lemma PartsOf(t: seq<char>, a: seq<char>, b: seq<char>, c: seq<char>, d: seq<char>, e: seq<char>)
    requires t == a + b + c + d + e
    ensures |t| == |a| + |b| + |c| + |d| + |e|
    ensures forall k :: 0 <= k < |a| ==> t[k] == a[k]
    ensures |b| > 0 ==> t[|a|] == b[0]
    ensures |c| > 1 ==> t[|a| + |b|] == c[0] && t[|a| + |b| + 1] == c[1]
    ensures forall k :: 0 <= k < |d| ==> t[|a| + |b| + |c| + k] == d[k]
    ensures forall k :: |t| - |e| <= k < |t| ==> t[k] == e[k - (|t| - |e|)]
  {
    var u := a + b + c;
    assert t == u + (d + e);
  }

  /** The characters that `strtoul` decides on. */
  lemma Deciding(t: seq<char>, p: nat, sign: seq<char>, pre: seq<char>, ds: seq<char>, m: nat, b: nat)
    requires Numeral(t, p, sign, pre, ds, m, b) && |sign| + |ds| > 0 && b <= 16
    ensures |sign| <= 1 && p < |t| && SkipSpaces(t, 0) == p
    ensures CharAt(t, p) == '-' <==> sign == "-"
    ensures CharAt(t, p) == '+' <==> sign == "+"
    ensures var (c, c') := (CharAt(t, p + |sign|), CharAt(t, p + |sign| + 1));
            && (pre != [] <==> c == '0' && (c' == 'x' || c' == 'X'))
            && (c == '0' <==> pre != [] || (|ds| > 0 && ds[0] == '0'))
  {
    Positions(t, p, sign, pre, ds, m, b);
    var c, c' := CharAt(t, p + |sign|), CharAt(t, p + |sign| + 1);
    if pre == [] {
      assert |ds| > 0 ==> c == ds[0] && DigitValue(c) < b;
      assert |ds| == 0 ==> c == ' ' || c == '\0';
      assert |ds| > 1 ==> c' == ds[1] && DigitValue(c') < b;
      assert |ds| <= 1 ==> c' == ' ' || c' == '\0';
    }
    SkipBlanks(t, 0, p);
  }

  lemma HeadOf(t: seq<char>, p: nat, sign: seq<char>, pre: seq<char>, ds: seq<char>, m: nat, b: nat, base: nat)
    requires Numeral(t, p, sign, pre, ds, m, b) && Settles(base, pre, ds, b)
    requires |sign| + |ds| > 0
    ensures ReadHead(t, base) == Head(sign == "-", b, p + |sign| + |pre|, pre != [])
  {
    Deciding(t, p, sign, pre, ds, m, b);
    assert |pre| == 0 || |pre| == 2;
    assert |sign| == 1 <==> sign == "-" || sign == "+";
    hide SkipSpaces;
    assert base != 0 && base != 16 ==> pre == [];
    hide Numeral;
  }

  lemma NumeralValue(t: seq<char>, p: nat, sign: seq<char>, pre: seq<char>, ds: seq<char>, m: nat, b: nat, base: nat)
    requires Numeral(t, p, sign, pre, ds, m, b) && Settles(base, pre, ds, b)
    requires |sign| + |ds| > 0
    ensures Magnitude(t, base) == NumBase(ds, b) && ReadHead(t, base).neg == (sign == "-")
  {
    hide ReadHead, NumBase;
    HeadOf(t, p, sign, pre, ds, m, b, base);
    var i := p + |sign| + |pre|;
    assert t[i..i + |ds|] == ds;
    assert m > 0 ==> t[i + |ds|] == ' ';
    RunEndIs(t, i, i + |ds|, b);
  }

  /** A sign that `strtoul` sees; a blank one goes with the padding. */
  function SignSeen(prefix: seq<char>): seq<char> {
    if prefix == "+" || prefix == "-" then prefix else []
  }

  function HexSeen(prefix: seq<char>): seq<char> {
    if prefix == "0x" || prefix == "0X" then prefix else []
  }

  /** A laid out number is a numeral: padding and precision become blanks and leading zeroes. */
  lemma LayoutIsNumeral(x: Item, d: Spec, b: nat) returns (p: nat, q: nat, m: nat)
    requires x.prefix in {[], " ", "+", "-"} || (x.prefix in {"0x", "0X"} && b == 16 && |x.body| > 0)
    requires forall i :: 0 <= i < |x.body| ==> DigitValue(x.body[i]) < b
    requires b > 0
    ensures Numeral(LayoutV(x, d), p, SignSeen(x.prefix), HexSeen(x.prefix), Rep('0', q) + x.body, m, b)
    ensures x.dprec <= |x.body| && (!x.zeropad || d.ladjust) ==> q == 0
  {
    var pad := Max(0, d.width - RealSizeV(x));
    var blanks := if !d.ladjust && !x.zeropad then pad else 0;
    var zeroes := if !d.ladjust && x.zeropad then pad else 0;
    var more := Max(0, x.dprec - |x.body|);
    p := if x.prefix == " " then blanks + 1 else blanks;
    q, m := zeroes + more, if d.ladjust then pad else 0;
    LayoutParts(x, d, blanks, zeroes, more, m);
    RepSum(zeroes, more);
    PrefixParts(blanks, p, x.prefix);
    ZeroDigits(q, x.body, b);
    hide LayoutV, Rep, DigitValue;
    Rearranged(Rep(' ', blanks), x.prefix, Rep('0', zeroes), Rep('0', more), x.body, Rep(' ', m),
               Rep(' ', p), SignSeen(x.prefix), HexSeen(x.prefix), Rep('0', q));
  }

  lemma Rearranged(a: seq<char>, b: seq<char>, c: seq<char>, d: seq<char>, e: seq<char>, f: seq<char>,
                   p: seq<char>, s: seq<char>, h: seq<char>, q: seq<char>)
    requires a + b == p + s + h && c + d == q
    ensures a + b + c + d + e + f == p + s + h + (q + e) + f
  {
    Reassociate(a, b, c, d, e, f);
  }

  lemma RepSum(m: nat, n: nat)
    ensures Rep('0', m) + Rep('0', n) == Rep('0', m + n)
  {
  }

  /** Blanks and prefix as blanks, sign and hexadecimal prefix. */
  lemma PrefixParts(blanks: nat, p: nat, prefix: seq<char>)
    requires prefix in {[], " ", "+", "-"} || prefix in {"0x", "0X"}
    requires p == if prefix == " " then blanks + 1 else blanks
    ensures Rep(' ', blanks) + prefix == Rep(' ', p) + SignSeen(prefix) + HexSeen(prefix)
  {
    if prefix == " " {
      assert Rep(' ', blanks) + " " == Rep(' ', p);
    }
    Reassociate3(Rep(' ', p), SignSeen(prefix), HexSeen(prefix));
  }

  lemma ZeroDigits(q: nat, body: seq<char>, b: nat)
    requires b > 0 && forall i :: 0 <= i < |body| ==> DigitValue(body[i]) < b
    ensures var ds := Rep('0', q) + body; forall i :: 0 <= i < |ds| ==> DigitValue(ds[i]) < b
  {
  }

  lemma LayoutParts(x: Item, d: Spec, blanks: nat, zeroes: nat, more: nat, m: nat)
    requires var pad := Max(0, d.width - RealSizeV(x));
             && blanks == (if !d.ladjust && !x.zeropad then pad else 0)
             && zeroes == (if !d.ladjust && x.zeropad then pad else 0)
             && m == if d.ladjust then pad else 0
    requires more == Max(0, x.dprec - |x.body|)
    ensures LayoutV(x, d) ==
            Rep(' ', blanks) + x.prefix + Rep('0', zeroes) + Rep('0', more) + x.body + Rep(' ', m)
  {
  }

  lemma Reassociate(a: seq<char>, b: seq<char>, c: seq<char>, d: seq<char>, e: seq<char>, f: seq<char>)
    ensures a + b + c + d + e + f == (a + b) + ((c + d) + e) + f
  {
  }

  lemma Reassociate3(a: seq<char>, b: seq<char>, c: seq<char>)
    ensures b == [] && c == [] ==> a + b + c == a
    ensures b == [] ==> a + b + c == a + c
    ensures c == [] ==> a + b + c == a + b
  {
  }

  /** All blanks read as zero. */
  lemma BlankValue(t: seq<char>, base: nat)
    requires forall i :: 0 <= i < |t| ==> t[i] == ' '
    ensures Magnitude(t, base) == 0
  {
    SkipBlanks(t, 0, |t|);
  }

  /** The magnitude read back is the one printed. */
  lemma MagnitudeOf(x: Item, d: Spec, b: nat, base: nat)
    requires x.prefix in {[], " ", "+", "-"} || (x.prefix in {"0x", "0X"} && b == 16 && |x.body| > 0)
    requires forall i :: 0 <= i < |x.body| ==> DigitValue(x.body[i]) < b
    requires 2 <= b <= 16
    requires base == b || (base == 0 && b == if HexSeen(x.prefix) != [] then 16
                                             else if |x.body| > 0 && x.body[0] == '0' then 8 else 10)
    requires base == 0 && b == 10 ==> x.dprec <= |x.body| && (!x.zeropad || d.ladjust)
    ensures Magnitude(LayoutV(x, d), base) == NumBase(x.body, b)
    ensures |x.body| > 0 ==> ReadHead(LayoutV(x, d), base).neg == (x.prefix == "-")
  {
    var t := LayoutV(x, d);
    var p, q, m := LayoutIsNumeral(x, d, b);
    var sign, pre, ds := SignSeen(x.prefix), HexSeen(x.prefix), Rep('0', q) + x.body;
    LeadingZeroes(q, x.body, b);
    hide LayoutV, ReadHead;
    if |sign| + |ds| > 0 {
      assert q > 0 ==> ds[0] == '0';
      assert q == 0 ==> ds == x.body;
      NumeralValue(t, p, sign, pre, ds, m, b, base);
    } else {
      Positions(t, p, sign, pre, ds, m, b);
      BlankValue(t, base);
      assert x.body == [];
    }
  }

  lemma {:induction false} FirstDigit(u: nat, b: nat, upper: bool)
    requires 2 <= b <= 16
    ensures Digits(u, b, upper)[0] == '0' <==> u == 0
    decreases u
  {
    if u >= b {
      Quotient(u, b);
      FirstDigit(u / b, b, upper);
    }
  }

  lemma BodyValue(u: nat, ch: char, d: Spec)
    ensures NumBase(Body(u, ch, d), BaseOf(ch)) == u
    ensures forall i :: 0 <= i < |Body(u, ch, d)| ==> DigitValue(Body(u, ch, d)[i]) < BaseOf(ch)
    ensures |Body(u, ch, d)| > 0 <==> u != 0 || d.prec != 0
    ensures |Body(u, ch, d)| > 0 ==> (Body(u, ch, d)[0] == '0' <==> u == 0 || (BaseOf(ch) == 8 && d.alt))
  {
    var s := Digits(u, BaseOf(ch), ch == 'X');
    DigitsValue(u, BaseOf(ch), ch == 'X');
    FirstDigit(u, BaseOf(ch), ch == 'X');
    LeadingZeroes(1, s, BaseOf(ch));
    assert Rep('0', 1) == "0";
  }

  /** Zero is zero in every base. */
  lemma ZeroBody(ch: char, d: Spec, b: nat)
    requires d.prec != 0 && b >= 2
    ensures Body(0, ch, d) == "0" && NumBase("0", b) == 0
  {
    assert "0"[..0] == [] && b * 0 == 0;
  }

  /** Which base to hand to `strtoul`: the conversion's own, or 0 when the text shows the base. */
  predicate ReadableIn(base: nat, ch: char, d: Spec) {
    base == BaseOf(ch)
    || (base == 0 && d.prec == -1 && if BaseOf(ch) == 10 then !d.zeropad || d.ladjust else d.alt)
  }

  lemma ItemReadsBack(x: Item, u: nat, ch: char, d: Spec, base: nat)
    requires IsSigned(ch) || IsUnsigned(ch)
    requires x == NumberItem(u, ch, d, x.prefix)
    requires x.prefix in {[], " ", "+", "-"} || x.prefix in {"0x", "0X"}
    requires x.prefix in {"0x", "0X"} <==> BaseOf(ch) == 16 && d.alt && u != 0
    requires ReadableIn(base, ch, d)
    ensures Magnitude(LayoutV(x, d), base) == u
    ensures u > 0 ==> ReadHead(LayoutV(x, d), base).neg == (x.prefix == "-")
  {
    BodyValue(u, ch, d);
    var b := BaseOf(ch);
    if base == 0 && u == 0 {
      ZeroBody(ch, d, 8);
      b := 8;
    }
    hide Body, LayoutV, ReadHead, Digits, NumBase;
    MagnitudeOf(x, d, b, base);
  }

  /** The 32-bit number an integer directive prints: magnitude, and whether a minus precedes it. */
  function Printed(r: Scan, args: seq<Arg>): (n: (nat, bool)) {
    var v := NumArg(args, r.arg);
    if IsSigned(r.ch) && Signed(v, 32) < 0 then (-Signed(v, 32), true)
    else (Unsigned(v, 32), false)
  }

  lemma PrintedModulo(r: Scan, args: seq<Arg>)
    ensures var (u, neg) := Printed(r, args);
            && u <= ULONG_MAX && (neg ==> u > 0)
            && Unsigned(NumArg(args, r.arg), 32) == if neg then (ULONG_MAX + 1 - u) % (ULONG_MAX + 1) else u
  {
  }

  lemma PrintedItem(r: Scan, args: seq<Arg>)
    requires (IsSigned(r.ch) || IsUnsigned(r.ch)) && !r.d.quad && !r.d.short && Proper(r.d)
    ensures var (x, u) := (ItemV(r, args), Printed(r, args).0);
            && x == NumberItem(u, r.ch, r.d, x.prefix)
            && (x.prefix in {[], " ", "+", "-"} || x.prefix in {"0x", "0X"})
            && (x.prefix in {"0x", "0X"} <==> BaseOf(r.ch) == 16 && r.d.alt && u != 0)
            && (x.prefix == "-" <==> Printed(r, args).1)
  {
    hide Body;
  }

  /** What is printed for a 32-bit number is read back as that number, modulo 2^32, whatever the
      flags, width and precision. */
  lemma PrintedReadsBack(r: Scan, args: seq<Arg>, base: nat)
    requires (IsSigned(r.ch) || IsUnsigned(r.ch)) && !r.d.quad && !r.d.short && Proper(r.d)
    requires ReadableIn(base, r.ch, r.d)
    ensures Value(FieldV(r, args), base) == Unsigned(NumArg(args, r.arg), 32)
  {
    hide LayoutV, Body, ReadHead, Magnitude, ItemV, NumberItem, Printed, Value, Signed, Unsigned, ReadableIn, NumArg;
    PrintedItem(r, args);
    PrintedModulo(r, args);
    ItemReadsBack(ItemV(r, args), Printed(r, args).0, r.ch, r.d, base);
    ValueOf(LayoutV(ItemV(r, args), r.d), base, Printed(r, args).0, Printed(r, args).1);
  }

  lemma ValueOf(t: seq<char>, base: nat, u: nat, neg: bool)
    requires Magnitude(t, base) == u <= ULONG_MAX && (neg ==> u > 0)
    requires u > 0 ==> ReadHead(t, base).neg == neg
    ensures Value(t, base) == if neg then (ULONG_MAX + 1 - u) % (ULONG_MAX + 1) else u
  {
    hide Magnitude, ReadHead;
  }

  // A format that is one directive.

  lemma {:induction false} RenderAlone(fmt: CString, args: seq<Arg>)
    requires |fmt| > 0 && fmt[0] == '%'
    requires ScanV(fmt, 1, args, 0, PLAIN).ch != '\0' && ScanV(fmt, 1, args, 0, PLAIN).fmt == |fmt|
    ensures RenderV(fmt, args) == FieldV(ScanV(fmt, 1, args, 0, PLAIN), args)
  {
    hide ScanV, FieldV;
    var r := ScanV(fmt, 1, args, 0, PLAIN);
    var first, field, last := Literal([]), Field(FieldV(r, args)), Literal([]);
    assert fmt[0..0] == [] && fmt[|fmt|..|fmt|] == [];
    assert PiecesV(fmt, |fmt|, args, NextArg(r)) == [last];
    assert PiecesV(fmt, 0, args, 0) == [first, field, last];
    assert [first, field, last][1..] == [field, last] && [field, last][1..] == [last] && [last][1..] == [];
    assert Flatten([last]) == [] && Flatten([field, last]) == field.text;
  }

  lemma DigitsArePlain(s: seq<char>)
    requires forall i :: 0 <= i < |s| ==> DigitValue(s[i]) < 16
    ensures Plain(s)
  {
    forall i | 0 <= i < |s| ensures '\0' < s[i] < 128 as char {
      DigitIsPlain(s[i]);
    }
  }

  lemma DigitIsPlain(c: char)
    requires DigitValue(c) < 16
    ensures '\0' < c < 128 as char
  {
  }

  lemma PlainParts(a: seq<char>, b: seq<char>, c: seq<char>, d: seq<char>, e: seq<char>, f: seq<char>)
    requires Plain(a) && Plain(b) && Plain(c) && Plain(d) && Plain(e) && Plain(f)
    ensures Plain(a + b + c + d + e + f)
  {
  }

  lemma FieldIsPlain(x: Item, d: Spec)
    requires x.prefix in {[], " ", "+", "-"} || x.prefix in {"0x", "0X"}
    requires forall i :: 0 <= i < |x.body| ==> DigitValue(x.body[i]) < 16
    ensures Plain(LayoutV(x, d))
  {
    var pad := d.width - RealSizeV(x);
    DigitsArePlain(x.body);
    PlainParts(if !d.ladjust && !x.zeropad then Rep(' ', pad) else [], x.prefix,
               if !d.ladjust && x.zeropad then Rep('0', pad) else [], Rep('0', x.dprec - |x.body|), x.body,
               if d.ladjust then Rep(' ', pad) else []);
  }

  /** `sprintf` with one 32-bit integer directive writes text from which `strtoul` gets the argument back. */
  lemma SprintfReadsBack(fmt: CString, args: seq<Arg>, base: nat)
    requires |fmt| > 0 && fmt[0] == '%'
    requires var r := ScanV(fmt, 1, args, 0, PLAIN);
             && r.fmt == |fmt| && (IsSigned(r.ch) || IsUnsigned(r.ch)) && !r.d.quad && !r.d.short
             && ReadableIn(base, r.ch, r.d)
    ensures Plain(RenderV(fmt, args))
    ensures Value(RenderV(fmt, args), base) == Unsigned(NumArg(args, ScanV(fmt, 1, args, 0, PLAIN).arg), 32)
  {
    var r := ScanV(fmt, 1, args, 0, PLAIN);
    RenderAlone(fmt, args);
    ScanProper(fmt, 1, args, 0, PLAIN);
    PrintedReadsBack(r, args, base);
    PrintedItem(r, args);
    var x := ItemV(r, args);
    BodyValue(Printed(r, args).0, r.ch, r.d);
    hide LayoutV, ScanV, RenderV, Body, Value;
    FieldIsPlain(x, r.d);
  }
}
