/** The text of a field, told by its characters. The classes, bases and sizes of the conversions are stated here anew,
    so that nothing rests on the functions the formatters are compared with. */
module Fields {
  import opened Powers
  import opened Strtoul
  import opened Format
  import opened Doprnt
  import opened RoundTrip
  import opened Agreement

  predicate IsDecimal(ch: char) {
    ch == 'd' || ch == 'i' || ch == 'D'
  }

  predicate IsOctal(ch: char) {
    ch == 'o' || ch == 'O'
  }

  predicate IsHex(ch: char) {
    ch == 'x' || ch == 'X' || ch == 'p'
  }

  predicate IsInteger(ch: char) {
    IsDecimal(ch) || IsOctal(ch) || IsHex(ch) || ch == 'u' || ch == 'U'
  }

  /** The argument is taken modulo this. */
  function Modulus(ch: char, d: Spec): nat {
    if ch == 'p' then 0x1_0000_0000
    else if d.quad then 0x1_0000_0000_0000_0000
    else if d.long || ch == 'D' || ch == 'O' || ch == 'U' then 0x1_0000_0000
    else if d.short then 0x1_0000
    else 0x1_0000_0000
  }

  /** n is the number that the conversion takes v for: signed or unsigned, by its size. */
  predicate TakenFor(ch: char, d: Spec, v: int, n: int) {
    var m: int := Modulus(ch, d);
    (n - v) % m == 0 && if IsDecimal(ch) then -m <= 2 * n < m else 0 <= n < m
  }

  /** What stands before the digits of n. */
  function Before(ch: char, d: Spec, n: int): seq<char> {
    if ch == 'p' then "0x"
    else if IsDecimal(ch) then (if n < 0 then "-" else if d.sign == '\0' then "" else [d.sign])
    else if ch == 'x' && d.alt && n != 0 then "0x"
    else if ch == 'X' && d.alt && n != 0 then "0X"
    else ""
  }

  function Base(ch: char): nat {
    if IsOctal(ch) then 8 else if IsHex(ch) then 16 else 10
  }

  function Abs(n: int): nat {
    if n < 0 then -n else n
  }

  predicate IsDigitChar(c: char, b: nat, caps: bool) {
    DigitValue(c) < b && ('0' <= c <= '9' || (b > 10 && if caps then 'A' <= c <= 'F' else 'a' <= c <= 'f'))
  }

  /** ds are the digits of n in the base of the conversion, letters in the case asked for: none for a zero with
      precision zero; a leading zero for zero itself and as the one that # gives an octal number. */
  ghost predicate DigitsOf(ch: char, d: Spec, caps: bool, n: int, ds: seq<char>) {
    && NumBase(ds, Base(ch)) == Abs(n)
    && (forall i :: 0 <= i < |ds| ==> IsDigitChar(ds[i], Base(ch), caps))
    && (ds == "" <==> n == 0 && d.prec == 0)
    && (|ds| > 0 ==> (ds[0] == '0' <==> n == 0 || (IsOctal(ch) && d.alt)))
    && (|ds| > 1 ==> ds[1] != '0' || ds[0] != '0')
    && (n == 0 ==> |ds| <= 1)
  }

  lemma {:induction false} DigitLetters(u: nat, b: nat, upper: bool)
    requires 2 <= b <= 16
    ensures forall i :: 0 <= i < |Digits(u, b, upper)| ==> IsDigitChar(Digits(u, b, upper)[i], b, upper)
    decreases u
  {
    if u >= b {
      Quotient(u, b);
      DigitLetters(u / b, b, upper);
      DigitLetter(u % b, b, upper);
      hide IsDigitChar;
    } else {
      DigitLetter(u, b, upper);
    }
  }

  lemma DigitLetter(x: nat, b: nat, upper: bool)
    requires x < b <= 16
    ensures IsDigitChar(DigitChar(x, upper), b, upper)
  {
  }

  lemma BodyDigits(u: nat, ch: char, d: Spec, upper: bool, n: int)
    requires IsInteger(ch) && u == Abs(n)
    ensures DigitsOf(ch, d, upper || ch == 'X', n, BodyD(u, ch, d, upper))
    ensures Body(u, ch, d) == BodyD(u, ch, d, false)
  {
    var b, caps := BaseOf(ch), TableD(ch, upper);
    var s := Digits(u, b, caps);
    hide NumBase, DigitChar, Digits;
    DigitsValue(u, b, caps);
    DigitLetters(u, b, caps);
    FirstDigit(u, b, caps);
    NumNone(b);
    OneDigit(b, caps);
    ZeroInFront(s, b, caps);
  }

  lemma ZeroInFront(s: seq<char>, b: nat, caps: bool)
    requires b > 0 && forall i :: 0 <= i < |s| ==> IsDigitChar(s[i], b, caps)
    ensures NumBase("0" + s, b) == NumBase(s, b)
    ensures forall i :: 0 <= i < |"0" + s| ==> IsDigitChar(("0" + s)[i], b, caps)
  {
    hide NumBase;
    LeadingZeroes(1, s, b);
    assert Rep('0', 1) == "0";
  }

  /** There is only one such digit string. */
  lemma DigitsUnique(ch: char, d: Spec, caps: bool, n: int, ds: seq<char>, ds': seq<char>)
    requires IsInteger(ch) && DigitsOf(ch, d, caps, n, ds) && DigitsOf(ch, d, caps, n, ds')
    ensures ds == ds'
  {
    var b := Base(ch);
    if n == 0 {
    } else if IsOctal(ch) && d.alt {
      BehindZero(ds, b);
      BehindZero(ds', b);
      SameDigits(ds[1..], ds'[1..], b, caps);
    } else {
      SameDigits(ds, ds', b, caps);
    }
  }

  lemma BehindZero(s: seq<char>, b: nat)
    requires |s| > 0 && s[0] == '0'
    ensures NumBase(s[1..], b) == NumBase(s, b) && s == "0" + s[1..]
  {
    assert Rep('0', 1) == "0" && s == "0" + s[1..];
    LeadingZeroes(1, s[1..], b);
  }

  ghost predicate Canonical(s: seq<char>, b: nat, caps: bool) {
    (forall i :: 0 <= i < |s| ==> IsDigitChar(s[i], b, caps)) && (|s| > 0 ==> s[0] != '0')
  }

  /** Digits without a leading zero are those of their value. */
  lemma {:induction false} SameDigits(s: seq<char>, t: seq<char>, b: nat, caps: bool)
    requires b > 0 && Canonical(s, b, caps) && Canonical(t, b, caps) && NumBase(s, b) == NumBase(t, b)
    ensures s == t
    decreases |s| + |t|
  {
    if |s| > 0 && |t| > 0 {
      var s', t', x, y := s[..|s| - 1], t[..|t| - 1], s[|s| - 1], t[|t| - 1];
      DivisionUnique(NumBase(s, b), b, NumBase(s', b), DigitValue(x));
      DivisionUnique(NumBase(t, b), b, NumBase(t', b), DigitValue(y));
      SameDigits(s', t', b, caps);
      assert s == s' + [x] && t == t' + [y];
    } else if |s| > 0 {
      PositiveValue(s, b, caps);
    } else if |t| > 0 {
      PositiveValue(t, b, caps);
    }
  }

  lemma {:induction false} PositiveValue(s: seq<char>, b: nat, caps: bool)
    requires b > 0 && |s| > 0 && Canonical(s, b, caps)
    ensures NumBase(s, b) > 0
  {
    if |s| > 1 {
      PositiveValue(s[..|s| - 1], b, caps);
      MulMono(b, 1, NumBase(s[..|s| - 1], b));
    } else {
      assert s[..0] == [];
    }
  }

  lemma OneDigit(b: nat, upper: bool)
    requires 2 <= b <= 16
    ensures |Digits(0, b, upper)| == 1
  {
  }

  /** Adding a multiple of m to v gives a number that differs from v by one. */
  lemma Multiple(v: int, u: int, m: nat, q: int)
    requires m > 0 && u == v + m * q
    ensures (u - v) % m == 0
  {
    var r := (m * q) % m;
    var e := q - (m * q) / m;
    assert m * q == m * ((m * q) / m) + r;
    assert m * e == r by {
      Distribute(m, q, (m * q) / m);
    }
    if e >= 1 {
      MulMono(m, 1, e);
    } else if e <= -1 {
      MulMono(m, 1, -e);
      Distribute(m, 0, e);
    }
  }

  lemma Distribute(m: int, a: int, b: int)
    ensures m * (a - b) == m * a - m * b
  {
  }

  /** The target's integer conversions keep the value modulo a power of two, in the range of the type. */
  lemma Converted(v: int, bits: nat, m: int)
    requires (bits == 16 && m == 0x1_0000) || (bits == 32 && m == 0x1_0000_0000)
             || (bits == 64 && m == 0x1_0000_0000_0000_0000)
    ensures (Unsigned(v, bits) - v) % m == 0 && 0 <= Unsigned(v, bits) < m
    ensures (Signed(v, bits) - v) % m == 0 && -m <= 2 * Signed(v, bits) < m
  {
    var q := v / m;
    assert Unsigned(v, bits) == v % m && v == m * q + v % m;
    var u := Unsigned(v, bits);
    Distribute(m, 0, q);
    Distribute(m, -q, 1);
    Multiple(v, u, m, -q);
    Multiple(v, u - m, m, -q - 1);
  }

  /** There is only one such number. */
  lemma NumberUnique(ch: char, d: Spec, v: int, n: int, n': int)
    requires TakenFor(ch, d, v, n) && TakenFor(ch, d, v, n')
    ensures n == n'
  {
    var m: int := Modulus(ch, d);
    var q, q' := (n - v) / m, (n' - v) / m;
    assert n - v == m * q && n' - v == m * q';
    if q < q' {
      Apart(m, q, q');
    } else if q' < q {
      Apart(m, q', q);
    }
  }

  lemma Apart(m: nat, q: int, q': int)
    requires q < q'
    ensures m * q + m <= m * q'
  {
    MulMono(m, q + 1, q');
    Distribute(m, q, -1);
  }

  /** The item made of a number: its prefix, and its digits as the body. */
  lemma NumberTaken(r: Scan, args: seq<Arg>) returns (n: int)
    requires IsInteger(r.ch)
    ensures TakenFor(r.ch, r.d, NumArg(args, r.arg), n)
    ensures var ch := if r.ch == 'p' then 'p' else r.ch;
            ItemV(r, args) == NumberItem(Abs(n), ch, r.d, Before(r.ch, r.d, n))
  {
    var v := NumArg(args, r.arg);
    if r.ch == 'p' {
      Converted(v, 32, 0x1_0000_0000);
      n := Unsigned(v, 32);
    } else {
      var bits := BitsV(r.ch, r.d);
      Converted(v, bits, Modulus(r.ch, r.d));
      n := if IsDecimal(r.ch) then Signed(v, bits) else Unsigned(v, bits);
    }
    hide Signed, Unsigned, Body;
  }

  /** An integer's field: sign or base prefix, zeroes up to the precision, and digits; filled up to the width with
      blanks behind, with zeroes after the prefix, or with blanks in front. */
  ghost predicate NumberField(t: seq<char>, ch: char, d: Spec, n: int, ds: seq<char>) {
    var before := Before(ch, d, n);
    var item := before + Rep('0', d.prec - |ds|) + ds;
    var gap := d.width - |item|;
    && DigitsOf(ch, d, ch == 'X', n, ds)
    && t == if d.ladjust then item + Rep(' ', gap)
            else if d.zeropad && d.prec < 0 then before + Rep('0', gap) + ds
            else Rep(' ', gap) + item
  }

  lemma NumberText(r: Scan, args: seq<Arg>) returns (n: int, ds: seq<char>)
    requires IsInteger(r.ch)
    ensures TakenFor(r.ch, r.d, NumArg(args, r.arg), n) && NumberField(FieldV(r, args), r.ch, r.d, n, ds)
  {
    hide TakenFor, DigitsOf, Body, ItemV, LayoutV, Rep;
    n := NumberTaken(r, args);
    ds := Body(Abs(n), r.ch, r.d);
    BodyDigits(Abs(n), r.ch, r.d, false, n);
    NumberLaid(ItemV(r, args), r.d);
  }

  lemma NumberLaid(x: Item, d: Spec)
    requires x.zeropad == (d.zeropad && x.dprec < 0)
    ensures var item := x.prefix + Rep('0', x.dprec - |x.body|) + x.body;
            var gap := d.width - |item|;
            LayoutV(x, d) == if d.ladjust then item + Rep(' ', gap)
                             else if x.zeropad then x.prefix + Rep('0', gap) + x.body
                             else Rep(' ', gap) + item
  {
  }

  /** What the other conversions print: a character, the string argument or "(null)" up to the precision, nothing for n,
      and an unknown conversion character itself. */
  function ItemText(r: Scan, args: seq<Arg>): seq<char> {
    if r.ch == 'c' then [(NumArg(args, r.arg) % 256) as char]
    else if r.ch == 's' then
      var s := if r.arg < |args| && args[r.arg].Text? then args[r.arg].s else "(null)";
      if 0 <= r.d.prec <= |s| then s[..r.d.prec] else s
    else [r.ch]
  }

  lemma OtherText(r: Scan, args: seq<Arg>)
    requires !IsInteger(r.ch)
    ensures FieldV(r, args) ==
            if r.ch == 'n' then ""
            else
              var item := ItemText(r, args);
              var gap := r.d.width - |item|;
              if r.d.ladjust then item + Rep(' ', gap)
              else if r.d.zeropad then Rep('0', gap) + item
              else Rep(' ', gap) + item
  {
    if r.ch != 'n' {
      var x := ItemV(r, args);
      assert x.body == ItemText(r, args) && x.prefix == [] && x.dprec == 0 && x.zeropad == r.d.zeropad;
      hide ItemV, ItemText;
      OtherLaid(x, r.d);
    }
  }

  lemma OtherLaid(x: Item, d: Spec)
    requires x.prefix == [] && x.dprec == 0 && x.zeropad == d.zeropad
    ensures var gap := d.width - |x.body|;
            LayoutV(x, d) == if d.ladjust then x.body + Rep(' ', gap)
                             else if d.zeropad then Rep('0', gap) + x.body
                             else Rep(' ', gap) + x.body
  {
  }

  /** Which conversions use up an argument. */
  lemma ArgumentsTaken(r: Scan)
    ensures NextArg(r) == if IsInteger(r.ch) || r.ch == 'c' || r.ch == 's' || r.ch == 'n' then r.arg + 1 else r.arg
  {
  }

  // The same for the second formatter.

  /** A short argument is first taken for the 16-bit number w, and then as 32 bits, whatever the conversion. */
  predicate TakenForD(ch: char, d: Spec, v: int, w: int, n: int) {
    && (if d.short && ch != 'p' then (w - v) % 0x1_0000 == 0 && -0x8000 <= w < 0x8000 else w == v)
    && (n - w) % 0x1_0000_0000 == 0
    && if IsDecimal(ch) then -0x8000_0000 <= n < 0x8000_0000 else 0 <= n < 0x1_0000_0000
  }

  lemma NumberTakenD(r: Scan, args: seq<Arg>, upper: bool) returns (w: int, n: int)
    requires IsInteger(r.ch)
    ensures TakenForD(r.ch, r.d, NumArg(args, r.arg), w, n)
    ensures ItemD(r, args, upper) ==
            NumberItemD(Abs(n), r.ch, r.d, if r.ch == 'p' then "" else Before(r.ch, r.d, n), upper)
    ensures n == 0 <==> ValueD(r, args) == 0
  {
    var v := NumArg(args, r.arg);
    Converted(v, 16, 0x1_0000);
    w := if r.d.short && r.ch != 'p' then Signed(v, 16) else v;
    Converted(w, 32, 0x1_0000_0000);
    n := if IsDecimal(r.ch) then Signed(w, 32) else Unsigned(w, 32);
    assert ValueD(r, args) == Unsigned(w, 32);
    SignedFrom(w);
    hide BodyD, Signed, Unsigned, ValueD, ItemD, NumberItemD, Before;
    ItemFrom(r, args, upper, n);
  }

  lemma ItemFrom(r: Scan, args: seq<Arg>, upper: bool, n: int)
    requires IsInteger(r.ch)
    requires var u := ValueD(r, args);
             u < 0x1_0000_0000 && n == if IsDecimal(r.ch) && u >= 0x8000_0000 then u - 0x1_0000_0000 else u
    ensures ItemD(r, args, upper) ==
            NumberItemD(Abs(n), r.ch, r.d, if r.ch == 'p' then "" else Before(r.ch, r.d, n), upper)
  {
    hide BodyD, ValueD;
  }

  lemma SignedFrom(w: int)
    ensures var u := Unsigned(w, 32);
            Signed(w, 32) == if u >= 0x8000_0000 then u - 0x1_0000_0000 else u
  {
  }

  /** The layout counts what stands before the digits against the precision, and a pointer has no 0x. */
  ghost predicate NumberFieldD(t: seq<char>, ch: char, d: Spec, caps: bool, n: int, ds: seq<char>) {
    var before := if ch == 'p' then "" else Before(ch, d, n);
    var item := before + Rep('0', d.prec - |before| - |ds|) + ds;
    var gap := d.width - |item|;
    && DigitsOf(ch, d, caps, n, ds)
    && t == if d.ladjust then item + Rep(' ', gap)
            else if d.zeropad && d.prec < 0 then before + Rep('0', gap) + ds
            else Rep(' ', gap) + item
  }

  /** `upper` is the table of hexadecimal digits left by the directive before; the text of this one, and the table it
      leaves: X switches it to capitals, and any digits written switch it back. */
  lemma NumberTextD(r: Scan, args: seq<Arg>, upper: bool) returns (w: int, n: int, ds: seq<char>)
    requires IsInteger(r.ch)
    ensures TakenForD(r.ch, r.d, NumArg(args, r.arg), w, n)
    ensures NumberFieldD(FieldD(r, args, upper), r.ch, r.d, upper || r.ch == 'X', n, ds)
    ensures UpperAfter(r, args, upper) <==> n == 0 && r.d.prec == 0 && (upper || r.ch == 'X')
  {
    hide TakenForD, DigitsOf, BodyD, ItemD, LayoutD, Rep, ValueD, Before;
    w, n := NumberTakenD(r, args, upper);
    ds := BodyD(Abs(n), r.ch, r.d, upper);
    BodyDigits(Abs(n), r.ch, r.d, upper, n);
    hide UpperAfter;
    NumberLaidD(ItemD(r, args, upper), r.d);
  }

  lemma NumberLaidD(x: Item, d: Spec)
    requires x.zeropad == (d.zeropad && x.dprec < 0)
    ensures var item := x.prefix + Rep('0', x.dprec - |x.prefix| - |x.body|) + x.body;
            var gap := d.width - |item|;
            LayoutD(x, d) == if d.ladjust then item + Rep(' ', gap)
                             else if x.zeropad then x.prefix + Rep('0', gap) + x.body
                             else Rep(' ', gap) + item
  {
  }

  /** Strings and characters are laid out alike, but nothing is padded for an unknown conversion. */
  lemma OtherTextD(r: Scan, args: seq<Arg>, upper: bool)
    requires !IsInteger(r.ch)
    ensures FieldD(r, args, upper) == if r.ch == 'c' || r.ch == 's' || r.ch == 'n' then FieldV(r, args) else [r.ch]
    ensures UpperAfter(r, args, upper) == upper
  {
    if r.ch == 'c' || r.ch == 's' {
      LayoutsWithoutPrefix(ItemV(r, args), r.d);
    }
  }
}
