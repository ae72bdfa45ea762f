/** The language of `_doprntx`, the second formatter, and where it agrees with the first. */
module Doprnt {
  import opened Strtoul
  import opened Format

  const CR := '\r'
  const LF := '\n'

  /** Literal text with each newline as CR LF. */
  function Crlf(s: seq<char>): seq<char> {
    if |s| == 0 then [] else Crlf(s[..|s| - 1]) + (if s[|s| - 1] == '\n' then [CR, LF] else [s[|s| - 1]])
  }

  /** Every newline has a carriage return directly before it. */
  ghost predicate LinesReturn(t: seq<char>) {
    forall i :: 0 <= i < |t| && t[i] == '\n' ==> i > 0 && t[i - 1] == '\r'
  }

  /** The text without those carriage returns. */
  function WithoutReturns(t: seq<char>): seq<char> {
    var n := |t|;
    if n == 0 then []
    else if t[n - 1] == '\n' && n > 1 && t[n - 2] == '\r' then WithoutReturns(t[..n - 2]) + "\n"
    else WithoutReturns(t[..n - 1]) + [t[n - 1]]
  }

  lemma Appended(u: seq<char>, c: char)
    ensures WithoutReturns(u + ['\r', '\n']) == WithoutReturns(u) + "\n"
    ensures c != '\n' ==> WithoutReturns(u + [c]) == WithoutReturns(u) + [c]
    ensures LinesReturn(u) ==> LinesReturn(u + ['\r', '\n'])
    ensures c != '\n' && LinesReturn(u) ==> LinesReturn(u + [c])
  {
    assert (u + ['\r', '\n'])[..|u|] == u && (u + [c])[..|u|] == u;
  }

  /** Crlf puts exactly one carriage return before each newline and changes nothing else. */
  lemma {:induction false} CrlfReturns(s: seq<char>)
    ensures LinesReturn(Crlf(s)) && WithoutReturns(Crlf(s)) == s
  {
    if |s| > 0 {
      var u, c := s[..|s| - 1], s[|s| - 1];
      CrlfReturns(u);
      assert s == u + [c];
      assert Crlf(s) == Crlf(u) + (if c == '\n' then ['\r', '\n'] else [c]);
      hide Crlf, WithoutReturns, LinesReturn;
      Appended(Crlf(u), c);
    }
  }

  /** The text in front of its last line end or character. */
  lemma Shortened(t: seq<char>, n: nat)
    requires |t| > 0 && LinesReturn(t) && n == if t[|t| - 1] == '\n' then |t| - 2 else |t| - 1
    ensures LinesReturn(t[..n]) && t == t[..n] + (if t[|t| - 1] == '\n' then ['\r', '\n'] else [t[|t| - 1]])
    ensures WithoutReturns(t) == WithoutReturns(t[..n]) + [t[|t| - 1]]
  {
    hide WithoutReturns;
    var u, c := t[..n], t[|t| - 1];
    assert LinesReturn(u) by {
      assert forall i :: 0 <= i < n ==> u[i] == t[i];
    }
    assert c == '\n' ==> t[n] == '\r';
    hide LinesReturn;
    assert t[n..] == (if c == '\n' then ['\r', '\n'] else [c]);
    assert t == u + t[n..];
    Appended(u, c);
  }

  /** No other text is like that. */
  lemma {:induction false} CrlfOnly(s: seq<char>, t: seq<char>)
    ensures t == Crlf(s) <==> LinesReturn(t) && WithoutReturns(t) == s
    decreases |t|
  {
    CrlfReturns(s);
    if LinesReturn(t) && WithoutReturns(t) == s && |t| > 0 {
      var n := if t[|t| - 1] == '\n' then |t| - 2 else |t| - 1;
      Shortened(t, n);
      CrlfOnly(WithoutReturns(t[..n]), t[..n]);
      assert s[..|s| - 1] == WithoutReturns(t[..n]);
      hide WithoutReturns, LinesReturn;
    }
  }

  /** A step of `_doprntx`, which adds l and L. */
  function StepD(fmt: CString, i: nat, args: seq<Arg>, a: nat, d: Spec): (s: Step)
    requires i < |fmt|
    ensures s.More? ==> i < s.fmt <= |fmt|
  {
    if fmt[i] == 'L' then More(i + 1, a, d)
    else if fmt[i] == 'l' then More(i + 1, a, d.(long := true))
    else CommonStep(fmt, i, args, a, d)
  }

  /** Reads on from position i after a percent sign; the conversion is NUL at the end of the format. */
  function ScanD(fmt: CString, i: nat, args: seq<Arg>, a: nat, d: Spec): (r: Scan)
    requires i <= |fmt|
    ensures r.ch != '\0' ==> i < r.fmt <= |fmt|
    decreases |fmt| - i
  {
    if i == |fmt| then Scan('\0', d, i, a)
    else
      match StepD(fmt, i, args, a, d)
      case More(i', a', d') => ScanD(fmt, i', args, a', d')
      case Conversion => Scan(fmt[i], d, i + 1, a)
  }

  /** `ARG`: a short argument is sign-extended whatever the conversion. */
  function ValueD(r: Scan, args: seq<Arg>): nat {
    var v := NumArg(args, r.arg);
    Unsigned(if r.d.short && r.ch != 'p' then Signed(v, 16) else v, 32)
  }

  /** The hexadecimal table in force while a number is converted: X switches it for itself. */
  function TableD(ch: char, upper: bool): bool {
    upper || ch == 'X'
  }

  function BodyD(u: nat, ch: char, d: Spec, upper: bool): seq<char> {
    if u == 0 && d.prec == 0 then []
    else
      var s := Digits(u, BaseOf(ch), TableD(ch, upper));
      if BaseOf(ch) == 8 && d.alt && s[0] != '0' then "0" + s else s
  }

  function NumberItemD(u: nat, ch: char, d: Spec, prefix: seq<char>, upper: bool): Item {
    Item(prefix, BodyD(u, ch, d, upper), d.prec, d.zeropad && d.prec < 0)
  }

  predicate IsNumber(ch: char) {
    IsSigned(ch) || IsUnsigned(ch) || ch == 'p'
  }

  function ItemD(r: Scan, args: seq<Arg>, upper: bool): Item
    requires IsNumber(r.ch) || r.ch == 'c' || r.ch == 's'
  {
    if r.ch == 'c' then CharItem((NumArg(args, r.arg) % 256) as char, r.d)
    else if r.ch == 's' then StringItem(TextArg(args, r.arg), r.d)
    else
      var u := ValueD(r, args);
      if IsSigned(r.ch) then
        if u >= 0x8000_0000 then NumberItemD(0x1_0000_0000 - u, r.ch, r.d, "-", upper)
        else NumberItemD(u, r.ch, r.d, SignPrefix(r.d.sign), upper)
      else NumberItemD(u, r.ch, r.d, HexPrefix(u, r.ch, r.d), upper)
  }

  /** The table left behind: the default again once digits have been written. */
  function UpperAfter(r: Scan, args: seq<Arg>, upper: bool): bool {
    if !IsNumber(r.ch) then upper
    else if ValueD(r, args) == 0 && r.d.prec == 0 then TableD(r.ch, upper)
    else false
  }

  function FieldSizeD(x: Item): nat {
    |x.body| + |x.prefix|
  }

  function RealSizeD(x: Item): nat {
    if x.dprec > FieldSizeD(x) then x.dprec else FieldSizeD(x)
  }

  /** Blanks, prefix, zeroes, precision zeroes, body, blanks; the prefix counts against the precision. */
  function LayoutD(x: Item, d: Spec): (s: seq<char>)
    ensures |s| == Max(d.width, RealSizeD(x))
  {
    var pad := d.width - RealSizeD(x);
    (if !d.ladjust && !x.zeropad then Rep(' ', pad) else [])
    + x.prefix
    + (if !d.ladjust && x.zeropad then Rep('0', pad) else [])
    + Rep('0', x.dprec - FieldSizeD(x))
    + x.body
    + (if d.ladjust then Rep(' ', pad) else [])
  }

  function FieldD(r: Scan, args: seq<Arg>, upper: bool): seq<char> {
    if r.ch == 'n' then []
    else if IsNumber(r.ch) || r.ch == 'c' || r.ch == 's' then LayoutD(ItemD(r, args, upper), r.d)
    else [r.ch]
  }

  /** Output from position i on. */
  function RenderD(fmt: CString, i: nat, args: seq<Arg>, a: nat, upper: bool): seq<char>
    requires i <= |fmt|
    decreases |fmt| - i
  {
    var j := PercentAt(fmt, i);
    Crlf(fmt[i..j]) +
    if j == |fmt| then []
    else
      var r := ScanD(fmt, j + 1, args, a, PLAIN);
      if r.ch == '\0' then []
      else FieldD(r, args, upper) + RenderD(fmt, r.fmt, args, NextArg(r), UpperAfter(r, args, upper))
  }

  /** The stores of the directives from position i on, in order. */
  function StoresD(fmt: CString, i: nat, args: seq<Arg>, a: nat, upper: bool, count: nat): seq<Store>
    requires i <= |fmt|
    decreases |fmt| - i
  {
    var j := PercentAt(fmt, i);
    if j == |fmt| then []
    else
      var r := ScanD(fmt, j + 1, args, a, PLAIN);
      if r.ch == '\0' then []
      else
        var now := count + |Crlf(fmt[i..j])|;
        StoreOf(r, now)
        + StoresD(fmt, r.fmt, args, NextArg(r), UpperAfter(r, args, upper), now + |FieldD(r, args, upper)|)
  }

  /** A format without directives is literal text. */
  lemma PlainFormat(fmt: CString, args: seq<Arg>, upper: bool)
    requires '%' !in fmt
    ensures var t := RenderD(fmt, 0, args, 0, upper); LinesReturn(t) && WithoutReturns(t) == fmt
  {
    var j := PercentAt(fmt, 0);
    assert j == |fmt| && fmt[0..j] == fmt;
    CrlfReturns(fmt);
    hide Crlf;
    assert RenderD(fmt, 0, args, 0, upper) == Crlf(fmt);
  }
}
