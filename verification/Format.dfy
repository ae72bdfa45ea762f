/** The printf directive language as `_vfprintf_r` reads it, and the text it stands for. */
module Format {
  import opened Powers
  import opened Strtoul

  /** Contents of a NUL-terminated string. */
  type CString = s: seq<char> | '\0' !in s witness []

  /** A variadic argument: an integer bit pattern, a string, or a null pointer. */
  datatype Arg = Num(v: int) | Text(s: CString) | Null

  // Integer conversions of the target: 16, 32 and 64 bits, two's complement.

  function Unsigned(v: int, bits: nat): nat
    requires bits == 16 || bits == 32 || bits == 64
  {
    v % (if bits == 16 then 0x1_0000 else if bits == 32 then 0x1_0000_0000 else 0x1_0000_0000_0000_0000)
  }

  function Signed(v: int, bits: nat): int
    requires bits == 16 || bits == 32 || bits == 64
  {
    var half := if bits == 16 then 0x8000 else if bits == 32 then 0x8000_0000 else 0x8000_0000_0000_0000;
    var u := Unsigned(v, bits);
    if u < half then u else u - 2 * half
  }

  /** `va_arg`, with 0 for an argument that is missing or no integer. */
  function NumArg(args: seq<Arg>, a: nat): int {
    if a < |args| && args[a].Num? then args[a].v else 0
  }

  function IntArg(args: seq<Arg>, a: nat): int {
    Signed(NumArg(args, a), 32)
  }

  function TextArg(args: seq<Arg>, a: nat): CString {
    if a < |args| && args[a].Text? then args[a].s else "(null)"
  }

  function Rep(c: char, n: int): (s: seq<char>)
    ensures |s| == if n > 0 then n else 0
    ensures forall i :: 0 <= i < |s| ==> s[i] == c
  {
    if n <= 0 then [] else seq(n, _ => c)
  }

  // Digits.

  function DigitChar(d: nat, upper: bool): (c: char)
    requires d < 16
    ensures DigitValue(c) == d
  {
    if d < 10 then '0' + d as char else if upper then 'A' + (d - 10) as char else 'a' + (d - 10) as char
  }

  lemma Quotient(u: nat, b: nat)
    requires 2 <= b <= u
    ensures 0 < u / b < u && u % b < b && u == b * (u / b) + u % b
  {
    var q := u / b;
    if q >= u {
      MulMono(u, 2, b);
      MulMono(b, u, q);
    }
  }

  function Digits(u: nat, b: nat, upper: bool): (s: seq<char>)
    requires 2 <= b <= 16
    ensures |s| > 0 && forall i :: 0 <= i < |s| ==> DigitValue(s[i]) < b
  {
    if u < b then [DigitChar(u, upper)]
    else
      Quotient(u, b);
      Digits(u / b, b, upper) + [DigitChar(u % b, upper)]
  }

  // Directives.

  /** Flags, width and precision read so far; precision -1 means none, sign NUL means none. */
  datatype Spec = Spec(alt: bool, ladjust: bool, zeropad: bool, long: bool, quad: bool, short: bool,
                       width: nat, prec: int, sign: char)

  const PLAIN := Spec(false, false, false, false, false, false, 0, -1, '\0')

  /** Precision -1 or more, and a sign only from the flags. */
  predicate Proper(d: Spec) {
    d.prec >= -1 && (d.sign == '\0' || d.sign == ' ' || d.sign == '+')
  }

  /** The conversion character reached, with what precedes it; fmt and arg are the positions after it. */
  datatype Scan = Scan(ch: char, d: Spec, fmt: nat, arg: nat)

  /** A flag that both formatters treat alike. */
  predicate IsFlag(ch: char) {
    ch == ' ' || ch == '#' || ch == '-' || ch == '+' || ch == '0' || ch == 'h'
  }

  function SetFlag(ch: char, d: Spec): (d': Spec)
    requires IsFlag(ch)
    ensures d'.quad == d.quad && (Proper(d) ==> Proper(d'))
  {
    if ch == ' ' then (if d.sign == '\0' then d.(sign := ' ') else d)
    else if ch == '#' then d.(alt := true)
    else if ch == '-' then d.(ladjust := true)
    else if ch == '+' then d.(sign := '+')
    else if ch == '0' then d.(zeropad := true)
    else d.(short := true)
  }

  /** A width from the arguments; a negative one means left adjustment. */
  function StarWidth(w: int, d: Spec): (d': Spec)
    ensures d'.quad == d.quad && (Proper(d) ==> Proper(d'))
  {
    if w >= 0 then d.(width := w) else d.(width := -w, ladjust := true)
  }

  /** End of the decimal number at i, and its value. */
  function NumberEnd(fmt: CString, i: nat): (j: nat)
    requires i <= |fmt|
    ensures i <= j <= |fmt|
  {
    RunEnd(fmt, i, 10)
  }

  function Number(fmt: CString, i: nat): nat
    requires i <= |fmt|
  {
    NumBase(fmt[i..NumberEnd(fmt, i)], 10)
  }

  /** A number that starts with a digit is not empty. */
  function PastDigit(fmt: CString, i: nat): (j: nat)
    requires i < |fmt| && '1' <= fmt[i] <= '9'
    ensures i < j <= |fmt| && j == NumberEnd(fmt, i)
  {
    NumberEnd(fmt, i)
  }

  /** One flag, width, precision or size modifier, or the conversion character itself. */
  datatype Step = More(fmt: nat, arg: nat, d: Spec) | Conversion

  /** The steps both formatters share. */
  function CommonStep(fmt: CString, i: nat, args: seq<Arg>, a: nat, d: Spec): (s: Step)
    requires i < |fmt|
    ensures s.More? ==> i < s.fmt <= |fmt| && s.d.quad == d.quad && (Proper(d) ==> Proper(s.d))
  {
    var ch := fmt[i];
    if IsFlag(ch) then More(i + 1, a, SetFlag(ch, d))
    else if ch == '*' then More(i + 1, a + 1, StarWidth(IntArg(args, a), d))
    else if ch == '.' then
      if CharAt(fmt, i + 1) == '*' then
        var n := IntArg(args, a);
        More(i + 2, a + 1, d.(prec := if n < 0 then -1 else n))
      else
        More(NumberEnd(fmt, i + 1), a, d.(prec := Number(fmt, i + 1)))
    else if '1' <= ch <= '9' then
      More(PastDigit(fmt, i), a, d.(width := Number(fmt, i)))
    else Conversion
  }

  /** A step of `_vfprintf_r`, which adds l, ll and q. */
  function StepV(fmt: CString, i: nat, args: seq<Arg>, a: nat, d: Spec): (s: Step)
    requires i < |fmt|
    ensures s.More? ==> i < s.fmt <= |fmt| && (Proper(d) ==> Proper(s.d))
  {
    if fmt[i] == 'l' then
      if CharAt(fmt, i + 1) == 'l' then More(i + 2, a, d.(quad := true)) else More(i + 1, a, d.(long := true))
    else if fmt[i] == 'q' then More(i + 1, a, d.(quad := true))
    else CommonStep(fmt, i, args, a, d)
  }

  /** Reads on from position i after a percent sign; the conversion is NUL at the end of the format. */
  function ScanV(fmt: CString, i: nat, args: seq<Arg>, a: nat, d: Spec): (r: Scan)
    requires i <= |fmt|
    ensures r.ch != '\0' ==> i < r.fmt <= |fmt|
    decreases |fmt| - i
  {
    if i == |fmt| then Scan('\0', d, i, a)
    else
      match StepV(fmt, i, args, a, d)
      case More(i', a', d') => ScanV(fmt, i', args, a', d')
      case Conversion => Scan(fmt[i], d, i + 1, a)
  }

  lemma {:induction false} ScanProper(fmt: CString, i: nat, args: seq<Arg>, a: nat, d: Spec)
    requires i <= |fmt| && Proper(d)
    ensures Proper(ScanV(fmt, i, args, a, d).d)
    decreases |fmt| - i
  {
    hide StepV, Proper;
    if i < |fmt| && StepV(fmt, i, args, a, d).More? {
      var s := StepV(fmt, i, args, a, d);
      ScanProper(fmt, s.fmt, args, s.arg, s.d);
    }
  }

  // Fields.

  /** A converted item ready for padding: prefix characters, digits and the precision that widens them. */
  datatype Item = Item(prefix: seq<char>, body: seq<char>, dprec: int, zeropad: bool)

  predicate IsSigned(ch: char) {
    ch == 'd' || ch == 'i' || ch == 'D'
  }

  predicate IsUnsigned(ch: char) {
    ch == 'o' || ch == 'O' || ch == 'u' || ch == 'U' || ch == 'x' || ch == 'X'
  }

  function BaseOf(ch: char): nat {
    if ch == 'o' || ch == 'O' then 8 else if ch == 'x' || ch == 'X' || ch == 'p' then 16 else 10
  }

  /** Bits of the argument that a conversion looks at. */
  function BitsV(ch: char, d: Spec): (bits: nat)
    ensures bits == 16 || bits == 32 || bits == 64
  {
    if d.quad then 64
    else if d.long || ch == 'D' || ch == 'O' || ch == 'U' then 32
    else if d.short then 16
    else 32
  }

  /** The digits, with the octal leading zero; nothing for zero at precision zero. */
  function Body(u: nat, ch: char, d: Spec): seq<char> {
    if u == 0 && d.prec == 0 then []
    else
      var s := Digits(u, BaseOf(ch), ch == 'X');
      if BaseOf(ch) == 8 && d.alt && s[0] != '0' then "0" + s else s
  }

  function HexPrefix(u: nat, ch: char, d: Spec): seq<char> {
    if (ch == 'x' || ch == 'X') && d.alt && u != 0 then ['0', ch] else []
  }

  function SignPrefix(sign: char): seq<char> {
    if sign == '\0' then [] else [sign]
  }

  /** An item for a number of magnitude u. */
  function NumberItem(u: nat, ch: char, d: Spec, prefix: seq<char>): Item {
    Item(prefix, Body(u, ch, d), d.prec, d.zeropad && d.prec < 0)
  }

  function StringItem(s: CString, d: Spec): Item {
    Item([], if 0 <= d.prec < |s| then s[..d.prec] else s, 0, d.zeropad)
  }

  function CharItem(c: char, d: Spec): Item {
    Item([], [c], 0, d.zeropad)
  }

  /** What `_vfprintf_r` makes of a conversion. */
  function ItemV(r: Scan, args: seq<Arg>): Item {
    var v := NumArg(args, r.arg);
    if r.ch == 'c' then CharItem((v % 256) as char, r.d)
    else if IsSigned(r.ch) then
      var n := Signed(v, BitsV(r.ch, r.d));
      if n < 0 then NumberItem(-n, r.ch, r.d, "-") else NumberItem(n, r.ch, r.d, SignPrefix(r.d.sign))
    else if IsUnsigned(r.ch) then
      var u := Unsigned(v, BitsV(r.ch, r.d));
      NumberItem(u, r.ch, r.d, HexPrefix(u, r.ch, r.d))
    else if r.ch == 'p' then NumberItem(Unsigned(v, 32), 'p', r.d, "0x")
    else if r.ch == 's' then StringItem(TextArg(args, r.arg), r.d)
    else CharItem(r.ch, r.d)
  }

  predicate TakesArg(ch: char) {
    ch == 'c' || ch == 's' || ch == 'p' || ch == 'n' || IsSigned(ch) || IsUnsigned(ch)
  }

  function NextArg(r: Scan): nat {
    if TakesArg(r.ch) then r.arg + 1 else r.arg
  }

  /** Size of the item before padding. */
  function RealSizeV(x: Item): nat {
    (if x.dprec > |x.body| then x.dprec else |x.body|) + |x.prefix|
  }

  function Max(a: int, b: int): int {
    if a > b then a else b
  }

  /** Blanks, prefix, zeroes, precision zeroes, body, blanks. */
  function LayoutV(x: Item, d: Spec): (s: seq<char>)
    ensures |s| == Max(d.width, RealSizeV(x))
  {
    var pad := d.width - RealSizeV(x);
    (if !d.ladjust && !x.zeropad then Rep(' ', pad) else [])
    + x.prefix
    + (if !d.ladjust && x.zeropad then Rep('0', pad) else [])
    + Rep('0', x.dprec - |x.body|)
    + x.body
    + (if d.ladjust then Rep(' ', pad) else [])
  }

  function FieldV(r: Scan, args: seq<Arg>): seq<char> {
    if r.ch == 'n' then [] else LayoutV(ItemV(r, args), r.d)
  }

  // Whole formats.

  datatype Piece = Literal(text: seq<char>) | Field(text: seq<char>)

  function PercentAt(fmt: CString, i: nat): (j: nat)
    requires i <= |fmt|
    ensures i <= j <= |fmt| && (j < |fmt| ==> fmt[j] == '%')
    ensures '%' !in fmt[i..j]
    decreases |fmt| - i
  {
    if i < |fmt| && fmt[i] != '%' then
      var j := PercentAt(fmt, i + 1);
      assert fmt[i..j] == [fmt[i]] + fmt[i + 1..j];
      j
    else i
  }

  /** Literal text up to a percent sign, then a field, and so on to the end of the format. */
  function PiecesV(fmt: CString, i: nat, args: seq<Arg>, a: nat): seq<Piece>
    requires i <= |fmt|
    decreases |fmt| - i
  {
    var j := PercentAt(fmt, i);
    [Literal(fmt[i..j])] +
    if j == |fmt| then []
    else
      var r := ScanV(fmt, j + 1, args, a, PLAIN);
      if r.ch == '\0' then [] else [Field(FieldV(r, args))] + PiecesV(fmt, r.fmt, args, NextArg(r))
  }

  /** What an n directive stores: through which argument, in how many bits, and the number. */
  datatype Store = Store(arg: nat, bits: nat, value: int)

  /** With `count` characters out so far. */
  function StoreOf(r: Scan, count: nat): seq<Store> {
    if r.ch == 'n' then [Store(r.arg, BitsV('n', r.d), Signed(count, BitsV('n', r.d)))] else []
  }

  /** The stores of the directives from position i on, in order. */
  function StoresV(fmt: CString, i: nat, args: seq<Arg>, a: nat, count: nat): seq<Store>
    requires i <= |fmt|
    decreases |fmt| - i
  {
    var j := PercentAt(fmt, i);
    if j == |fmt| then []
    else
      var r := ScanV(fmt, j + 1, args, a, PLAIN);
      if r.ch == '\0' then []
      else
        StoreOf(r, count + (j - i))
        + StoresV(fmt, r.fmt, args, NextArg(r), count + (j - i) + |FieldV(r, args)|)
  }

  function Flatten(ps: seq<Piece>): seq<char> {
    if |ps| == 0 then [] else ps[0].text + Flatten(ps[1..])
  }

  /** The whole output. */
  function RenderV(fmt: CString, args: seq<Arg>): seq<char> {
    Flatten(PiecesV(fmt, 0, args, 0))
  }
}
