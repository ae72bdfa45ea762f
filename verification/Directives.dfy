/** A format as literal text and directives: what is printed, what is stored, and some examples. */
module Directives {
  import opened Strtoul
  import opened Format
  import opened Doprnt
  import opened Vfprintf
  import opened Reading
  import opened Fields

  /** Literal text stands for itself. */
  lemma LiteralText(fmt: CString, i: nat, args: seq<Arg>, a: nat)
    requires i <= |fmt| && '%' !in fmt[i..]
    ensures RestV(fmt, i, args, a) == fmt[i..]
  {
    NoPercent(fmt, i, |fmt|);
    RestParts(fmt, i, args, a);
  }

  lemma {:induction false} NoPercent(fmt: CString, i: nat, j: nat)
    requires i <= j <= |fmt| && '%' !in fmt[i..j] && (j < |fmt| ==> fmt[j] == '%')
    ensures PercentAt(fmt, i) == j
    decreases j - i
  {
    if i < j {
      assert fmt[i..j][0] == fmt[i] && fmt[i..j][1..] == fmt[i + 1..j];
      NoPercent(fmt, i + 1, j);
    }
  }

  lemma DirectiveBehind(fmt: CString, i: nat, lit: seq<char>, args: seq<Arg>, a: nat,
                        fs: seq<char>, w: Amount, p: Amount, m: Modifier, ch: char)
    requires i <= |fmt| && '%' !in lit && WellWritten(fs, w, p, ch)
    requires Stands(fmt, i, lit + "%" + DirectiveText(fs, w, p, m, ch))
    ensures var j := i + |lit|;
            && j < |fmt| && fmt[i..j] == lit && PercentAt(fmt, i) == j
            && Stands(fmt, j + 1, DirectiveText(fs, w, p, m, ch))
            && ScanV(fmt, j + 1, args, a, PLAIN).ch == ch != '\0'
            && ScanV(fmt, j + 1, args, a, PLAIN).fmt == j + 1 + |DirectiveText(fs, w, p, m, ch)| <= |fmt|
  {
    var t := DirectiveText(fs, w, p, m, ch);
    hide ScanV, DirectiveText, Stands, PercentAt, Asked;
    BehindLiteral(fmt, i, lit, t);
    NoPercent(fmt, i, i + |lit|);
    DirectiveRead(fmt, i + |lit| + 1, args, a, fs, w, p, m, ch);
    StandsWithin(fmt, i + |lit| + 1, t);
    assert ch != '\0';
  }

  /** Literal text and a directive: the text, the field, and the rest of the format with the arguments that are left. */
  lemma DirectiveRendered(fmt: CString, i: nat, lit: seq<char>, args: seq<Arg>, a: nat,
                          fs: seq<char>, w: Amount, p: Amount, m: Modifier, ch: char)
    requires i <= |fmt| && '%' !in lit && WellWritten(fs, w, p, ch)
    requires Stands(fmt, i, lit + "%" + DirectiveText(fs, w, p, m, ch))
    ensures var j := i + |lit| + 1;
            var r := ScanV(fmt, j, args, a, PLAIN);
            && r.fmt == j + |DirectiveText(fs, w, p, m, ch)| <= |fmt|
            && RestV(fmt, i, args, a) == lit + FieldV(r, args) + RestV(fmt, r.fmt, args, NextArg(r))
  {
    hide ScanV, FieldV, DirectiveText, NextArg, Stands, PercentAt, RestV, WellWritten;
    DirectiveBehind(fmt, i, lit, args, a, fs, w, p, m, ch);
    RestBehind(fmt, i, args, a, i + |lit|);
  }

  lemma RestBehind(fmt: CString, i: nat, args: seq<Arg>, a: nat, j: nat)
    requires i <= |fmt| && j == PercentAt(fmt, i) < |fmt|
    requires ScanV(fmt, j + 1, args, a, PLAIN).ch != '\0'
    ensures var r := ScanV(fmt, j + 1, args, a, PLAIN);
            RestV(fmt, i, args, a) == fmt[i..j] + FieldV(r, args) + RestV(fmt, r.fmt, args, NextArg(r))
  {
    hide ScanV, FieldV, NextArg, PercentAt, RestV;
    RestParts(fmt, i, args, a);
    var r := ScanV(fmt, j + 1, args, a, PLAIN);
    Grouped(fmt[i..j], FieldV(r, args), RestV(fmt, r.fmt, args, NextArg(r)));
  }

  lemma BehindLiteral(fmt: CString, i: nat, lit: seq<char>, t: seq<char>)
    requires '%' !in lit && Stands(fmt, i, lit + "%" + t)
    ensures var j := i + |lit|; j < |fmt| && fmt[i..j] == lit && fmt[j] == '%' && Stands(fmt, j + 1, t)
  {
    assert lit + "%" + t == lit + ("%" + t);
    StandsParts(fmt, i, lit, "%" + t);
    StandsParts(fmt, i + |lit|, "%", t);
    StandsAt(fmt, i + |lit|, "%" + t, 0);
  }

  /** Nothing comes of a directive that the end of the format cuts off before its conversion character. */
  lemma CutOff(fmt: CString, i: nat, lit: seq<char>, args: seq<Arg>, a: nat,
               fs: seq<char>, w: Amount, p: Amount, m: Modifier)
    requires i <= |fmt| && '%' !in lit && HeadWritten(fs, w, p)
    requires Stands(fmt, i, lit + "%" + HeadText(fs, w, p, m))
    requires i + |lit| + 1 + |HeadText(fs, w, p, m)| == |fmt|
    ensures RestV(fmt, i, args, a) == lit
  {
    hide Stands, RestV, PercentAt, HeadWritten, HeadText, ScanV;
    BehindLiteral(fmt, i, lit, HeadText(fs, w, p, m));
    HeadRead(fmt, i + |lit| + 1, args, a, fs, w, p, m);
    NothingBehind(fmt, i, i + |lit|, args, a);
  }

  lemma NothingBehind(fmt: CString, i: nat, j: nat, args: seq<Arg>, a: nat)
    requires i <= j < |fmt| && '%' !in fmt[i..j] && fmt[j] == '%' && ScanV(fmt, j + 1, args, a, PLAIN).ch == '\0'
    ensures RestV(fmt, i, args, a) == fmt[i..j]
  {
    hide RestV, ScanV;
    NoPercent(fmt, i, j);
    RestParts(fmt, i, args, a);
  }

  /** x is the count as a variable of so many bits holds it. */
  predicate HeldIn(x: int, bits: nat, count: nat) {
    var m: int := if bits == 64 then 0x1_0000_0000_0000_0000 else if bits == 16 then 0x1_0000 else 0x1_0000_0000;
    (x - count) % m == 0 && -m <= 2 * x < m
  }

  /** An n directive stores the number of characters before it, in the width of its size modifier. */
  lemma DirectiveStores(fmt: CString, i: nat, lit: seq<char>, args: seq<Arg>, a: nat, count: nat,
                        fs: seq<char>, w: Amount, p: Amount, m: Modifier, ch: char) returns (x: int)
    requires i <= |fmt| && '%' !in lit && WellWritten(fs, w, p, ch)
    requires Stands(fmt, i, lit + "%" + DirectiveText(fs, w, p, m, ch))
    ensures var bits := if m == LL || m == Q then 64 else if m == H then 16 else 32;
            var r := ScanV(fmt, i + |lit| + 1, args, a, PLAIN);
            && r.fmt <= |fmt| && HeldIn(x, bits, count + |lit|)
            && StoresV(fmt, i, args, a, count) ==
               (if ch == 'n' then [Store(r.arg, bits, x)] else [])
               + StoresV(fmt, r.fmt, args, NextArg(r), count + |lit| + |FieldV(r, args)|)
  {
    var j := i + |lit|;
    hide ScanV, FieldV, DirectiveText, NextArg, Stands, PercentAt, StoresV, StoreOf, HeldIn, Asked;
    DirectiveBehind(fmt, i, lit, args, a, fs, w, p, m, ch);
    DirectiveRead(fmt, j + 1, args, a, fs, w, p, m, ch);
    var r := ScanV(fmt, j + 1, args, a, PLAIN);
    x := StoreKept(r, count + |lit|, fs, w, p, m, IntArg(args, a), IntArg(args, if w.Star? then a + 1 else a));
    hide WellWritten, IntArg;
    StoresParts(fmt, i, args, a, count);
  }

  lemma StoreKept(r: Scan, count: nat, fs: seq<char>, w: Amount, p: Amount, m: Modifier, n: int, n': int)
    returns (x: int)
    requires Asked(r.d, fs, w, p, m, n, n')
    ensures var bits := if m == LL || m == Q then 64 else if m == H then 16 else 32;
            && HeldIn(x, bits, count)
            && StoreOf(r, count) == if r.ch == 'n' then [Store(r.arg, bits, x)] else []
  {
    hide NumBase;
    var bits: nat := if m == LL || m == Q then 64 else if m == H then 16 else 32;
    x := Signed(count, bits);
    Converted(count, bits, if bits == 64 then 0x1_0000_0000_0000_0000 else if bits == 16 then 0x1_0000
                           else 0x1_0000_0000);
    assert BitsV('n', r.d) == bits;
    hide Signed;
  }

  /** The same for the second formatter, which knows no ll and q: newlines of the text as CR LF, and the field with the
      table of digits left by the directive before. */
  lemma DirectiveRenderedD(fmt: CString, i: nat, lit: seq<char>, args: seq<Arg>, a: nat, upper: bool,
                           fs: seq<char>, w: Amount, p: Amount, m: Modifier, ch: char)
    requires i <= |fmt| && '%' !in lit && WellWritten(fs, w, p, ch) && m != LL && m != Q
    requires Stands(fmt, i, lit + "%" + DirectiveText(fs, w, p, m, ch))
    ensures var r := ScanV(fmt, i + |lit| + 1, args, a, PLAIN);
            && r.fmt <= |fmt|
            && RenderD(fmt, i, args, a, upper) ==
               Crlf(lit) + FieldD(r, args, upper) + RenderD(fmt, r.fmt, args, NextArg(r), UpperAfter(r, args, upper))
  {
    var j := i + |lit|;
    hide ScanV, ScanD, FieldD, DirectiveText, NextArg, Stands, PercentAt, UpperAfter, Crlf, WellWritten;
    DirectiveBehind(fmt, i, lit, args, a, fs, w, p, m, ch);
    DirectiveReadD(fmt, j + 1, args, a, fs, w, p, m, ch);
    var r := ScanV(fmt, j + 1, args, a, PLAIN);
    Grouped(Crlf(lit), FieldD(r, args, upper), RenderD(fmt, r.fmt, args, NextArg(r), UpperAfter(r, args, upper)));
  }

  lemma LiteralTextD(fmt: CString, i: nat, args: seq<Arg>, a: nat, upper: bool)
    requires i <= |fmt| && '%' !in fmt[i..]
    ensures RenderD(fmt, i, args, a, upper) == Crlf(fmt[i..])
  {
    NoPercent(fmt, i, |fmt|);
    assert fmt[i..|fmt|] == fmt[i..] && Crlf(fmt[i..]) + [] == Crlf(fmt[i..]);
    hide Crlf;
  }

  lemma DirectiveStoresD(fmt: CString, i: nat, lit: seq<char>, args: seq<Arg>, a: nat, upper: bool, count: nat,
                         fs: seq<char>, w: Amount, p: Amount, m: Modifier, ch: char) returns (x: int)
    requires i <= |fmt| && '%' !in lit && WellWritten(fs, w, p, ch) && m != LL && m != Q
    requires Stands(fmt, i, lit + "%" + DirectiveText(fs, w, p, m, ch))
    ensures var r := ScanV(fmt, i + |lit| + 1, args, a, PLAIN);
            var now := count + |Crlf(lit)|;
            && r.fmt <= |fmt| && HeldIn(x, if m == H then 16 else 32, now)
            && StoresD(fmt, i, args, a, upper, count) ==
               (if ch == 'n' then [Store(r.arg, if m == H then 16 else 32, x)] else [])
               + StoresD(fmt, r.fmt, args, NextArg(r), UpperAfter(r, args, upper), now + |FieldD(r, args, upper)|)
  {
    var j := i + |lit|;
    hide ScanV, ScanD, FieldD, DirectiveText, NextArg, Stands, PercentAt, UpperAfter, Crlf, StoreOf, HeldIn, Asked;
    DirectiveBehind(fmt, i, lit, args, a, fs, w, p, m, ch);
    DirectiveRead(fmt, j + 1, args, a, fs, w, p, m, ch);
    DirectiveReadD(fmt, j + 1, args, a, fs, w, p, m, ch);
    var r := ScanV(fmt, j + 1, args, a, PLAIN);
    x := StoreKept(r, count + |Crlf(lit)|, fs, w, p, m, IntArg(args, a), IntArg(args, if w.Star? then a + 1 else a));
    hide WellWritten, IntArg;
  }

  /** Where the two languages differ: L is an unknown conversion in the first and skipped in the second; q is a size in
      the first and an unknown conversion in the second; of two l, the second takes each for one. */
  lemma Dialects(fmt: CString, i: nat, args: seq<Arg>, a: nat, d: Spec)
    requires i < |fmt|
    ensures fmt[i] == 'L' ==>
              && ScanV(fmt, i, args, a, d) == Scan('L', d, i + 1, a)
              && ScanD(fmt, i, args, a, d) == ScanD(fmt, i + 1, args, a, d)
    ensures fmt[i] == 'q' ==>
              && ScanV(fmt, i, args, a, d) == ScanV(fmt, i + 1, args, a, d.(quad := true))
              && ScanD(fmt, i, args, a, d) == Scan('q', d, i + 1, a)
    ensures fmt[i] == 'l' ==> ScanD(fmt, i, args, a, d) == ScanD(fmt, i + 1, args, a, d.(long := true))
  {
    Stepped(fmt, i, args, a, d);
    hide ScanV;
  }

  // Some formats.

  /** A format that is one directive and text behind it. */
  lemma OneDirective(fmt: CString, args: seq<Arg>,
                     fs: seq<char>, w: Amount, p: Amount, m: Modifier, ch: char, tail: seq<char>) returns (r: Scan)
    requires WellWritten(fs, w, p, ch) && !w.Star? && !p.Star?
    requires fmt == "%" + DirectiveText(fs, w, p, m, ch) + tail && '%' !in tail
    ensures r.ch == ch && r.arg == 0 && Asked(r.d, fs, w, p, m, IntArg(args, 0), IntArg(args, 0))
    ensures RenderV(fmt, args) == FieldV(r, args) + tail
  {
    var t := DirectiveText(fs, w, p, m, ch);
    hide ScanV, FieldV, DirectiveText, Asked, NextArg, WellWritten, IntArg;
    var k := 1 + |t|;
    assert fmt[k..] == tail && fmt[0..0 + |[] + "%" + t|] == [] + "%" + t && fmt[1..1 + |t|] == t;
    DirectiveRendered(fmt, 0, [], args, 0, fs, w, p, m, ch);
    DirectiveRead(fmt, 1, args, 0, fs, w, p, m, ch);
    r := ScanV(fmt, 1, args, 0, PLAIN);
    LiteralText(fmt, r.fmt, args, NextArg(r));
  }

  lemma ShortNumbers(x: char, y: char, b: nat)
    ensures NumBase([x], b) == DigitValue(x) && NumBase([x, y], b) == b * DigitValue(x) + DigitValue(y)
  {
    assert [x, y][..1] == [x] && [x][..0] == [];
    assert b * 0 == 0;
  }

  /** The field of 42 in five columns. */
  lemma Field42(r: Scan, args: seq<Arg>)
    requires args == [Num(42)] && r.ch == 'd' && r.arg == 0 && r.d.width == 5 && r.d.prec == -1
    requires !r.d.quad && !r.d.long && !r.d.short && (r.d.sign == '\0' || r.d.sign == '+')
    ensures var plus := if r.d.sign == '+' then "+" else "";
            FieldV(r, args) == if r.d.ladjust then plus + "42" + Rep(' ', 3 - |plus|)
                               else if r.d.zeropad then plus + Rep('0', 3 - |plus|) + "42"
                               else Rep(' ', 3 - |plus|) + plus + "42"
  {
    var n, ds := NumberText(r, args);
    NumberUnique('d', r.d, 42, n, 42);
    hide FieldV, DigitsOf, TakenFor, NumBase, NumberField;
    Digits42(r.d);
    WithoutPrecision(FieldV(r, args), r.d, 42, ds);
    DigitsUnique('d', r.d, false, 42, ds, "42");
  }

  lemma WithoutPrecision(t: seq<char>, d: Spec, n: int, ds: seq<char>)
    requires NumberField(t, 'd', d, n, ds) && d.prec == -1
    ensures DigitsOf('d', d, false, n, ds)
    ensures var before := Before('d', d, n);
            var gap := d.width - |before| - |ds|;
            t == if d.ladjust then before + ds + Rep(' ', gap)
                 else if d.zeropad then before + Rep('0', gap) + ds
                 else Rep(' ', gap) + before + ds
  {
    hide DigitsOf;
    var before := Before('d', d, n);
    assert before + Rep('0', d.prec - |ds|) + ds == before + ds;
    Grouped(Rep(' ', d.width - |before| - |ds|), before, ds);
  }

  lemma Digits42(d: Spec)
    requires d.prec == -1
    ensures DigitsOf('d', d, false, 42, "42")
  {
    ShortNumbers('4', '2', 10);
    hide NumBase;
  }

  /** "%-5d|" and "%05d" of 42. */
  lemma LeftAndZeroes(args: seq<Arg>)
    requires args == [Num(42)]
    ensures RenderV("%-5d|", args) == "42   |"
    ensures RenderV("%05d", args) == "00042"
  {
    hide FieldV, RenderV, NumBase, IntArg;
    var w := Written("5");
    assert "%-5d|" == "%" + DirectiveText("-", w, Absent, None, 'd') + "|";
    assert "%05d" == "%" + DirectiveText("0", w, Absent, None, 'd') + "";
    ShortNumbers('5', '5', 10);
    var r := OneDirective("%-5d|", args, "-", w, Absent, None, 'd', "|");
    var r' := OneDirective("%05d", args, "0", w, Absent, None, 'd', "");
    hide DirectiveText;
    Field42(r, args);
    Field42(r', args);
    assert Rep(' ', 3) == "   " && Rep('0', 3) == "000";
  }

  /** "%.3s" keeps three characters. */
  lemma ThreeOfAString(args: seq<Arg>)
    requires args == [Text("abcdef")]
    ensures RenderV("%.3s", args) == "abc"
  {
    hide FieldV, RenderV, NumBase, IntArg;
    var p := Written("3");
    assert "%.3s" == "%" + DirectiveText("", Absent, p, None, 's') + "";
    ShortNumbers('3', '3', 10);
    var r := OneDirective("%.3s", args, "", Absent, p, None, 's', "");
    hide DirectiveText;
    OtherText(r, args);
    assert Rep(' ', -3) == [] && ItemText(r, args) == "abc";
  }

  /** "%#X" of 255, with the X of the prefix and the letters of the digits as capitals. */
  lemma CapitalHex(args: seq<Arg>)
    requires args == [Num(255)]
    ensures RenderV("%#X", args) == "0XFF"
  {
    hide FieldV, RenderV, IntArg;
    assert "%#X" == "%" + DirectiveText("#", Absent, Absent, None, 'X') + "";
    var r := OneDirective("%#X", args, "#", Absent, Absent, None, 'X', "");
    hide DirectiveText;
    CapitalField(r, args);
  }

  lemma CapitalField(r: Scan, args: seq<Arg>)
    requires args == [Num(255)] && r.ch == 'X' && r.arg == 0 && r.d == PLAIN.(alt := true)
    ensures FieldV(r, args) == "0XFF"
  {
    var n, ds := NumberText(r, args);
    NumberUnique('X', r.d, 255, n, 255);
    hide TakenFor;
    ShortNumbers('F', 'F', 16);
    assert DigitsOf('X', r.d, true, 255, ['F', 'F']);
    DigitsUnique('X', r.d, true, 255, ds, ['F', 'F']);
    hide FieldV, DigitsOf, TakenFor, NumBase;
    assert Rep('0', -3) == [] && Rep(' ', -4) == [];
  }

  /** In the second formatter a zero that "%.0X" leaves out leaves the capitals to the next directive. */
  lemma CapitalsLeft(args: seq<Arg>)
    requires args == [Num(0), Num(255)]
    ensures RenderD("%.0X%x", 0, args, 0, false) == "FF"
  {
    hide RenderD;
    NothingPrinted("%.0X%x", args);
    CapitalsTaken("%.0X%x", args);
  }

  lemma NothingPrinted(fmt: CString, args: seq<Arg>)
    requires fmt == "%.0X%x" && args == [Num(0), Num(255)]
    ensures RenderD(fmt, 0, args, 0, false) == RenderD(fmt, 4, args, 1, true)
  {
    var p := Written("0");
    hide FieldD, RenderD, ScanV, NumBase, IntArg, UpperAfter;
    assert fmt[0..4] == [] + "%" + DirectiveText("", Absent, p, None, 'X') && fmt[1..4] == ".0X";
    hide DirectiveText;
    DirectiveRenderedD(fmt, 0, [], args, 0, false, "", Absent, p, None, 'X');
    DirectiveRead(fmt, 1, args, 0, "", Absent, p, None, 'X');
    ShortNumbers('0', '0', 10);
    NothingAndCapitals(ScanV(fmt, 1, args, 0, PLAIN), args);
    hide Asked, Stands, WellWritten;
  }

  lemma CapitalsTaken(fmt: CString, args: seq<Arg>)
    requires fmt == "%.0X%x" && args == [Num(0), Num(255)]
    ensures RenderD(fmt, 4, args, 1, true) == "FF"
  {
    hide FieldD, RenderD, ScanV, NumBase, IntArg, UpperAfter;
    assert fmt[4..6] == [] + "%" + DirectiveText("", Absent, Absent, None, 'x') && fmt[5..6] == "x";
    hide DirectiveText;
    DirectiveRenderedD(fmt, 4, [], args, 1, true, "", Absent, Absent, None, 'x');
    DirectiveRead(fmt, 5, args, 1, "", Absent, Absent, None, 'x');
    CapitalsUsed(ScanV(fmt, 5, args, 1, PLAIN), args);
    hide Asked, Stands, WellWritten;
    LiteralTextD(fmt, 6, args, 2, false);
  }

  lemma NothingAndCapitals(r: Scan, args: seq<Arg>)
    requires |args| > 0 && args[0] == Num(0) && r.ch == 'X' && r.arg == 0 && r.d == PLAIN.(prec := 0)
    ensures FieldD(r, args, false) == "" && UpperAfter(r, args, false)
  {
    var w, n, ds := NumberTextD(r, args, false);
    assert n == 0 && ds == "";
    assert Rep('0', 0) == [] && Rep(' ', 0) == [];
    hide FieldD;
  }

  lemma CapitalsUsed(r: Scan, args: seq<Arg>)
    requires |args| == 2 && args[1] == Num(255) && r.ch == 'x' && r.arg == 1 && r.d == PLAIN
    ensures FieldD(r, args, true) == "FF" && !UpperAfter(r, args, true)
  {
    var w, n, ds := NumberTextD(r, args, true);
    assert n == 255 by {
      hide FieldD, NumberFieldD;
    }
    ShortNumbers('F', 'F', 16);
    assert DigitsOf('x', r.d, true, 255, ['F', 'F']);
    DigitsUnique('x', r.d, true, 255, ds, ['F', 'F']);
    hide FieldD, DigitsOf, TakenForD, NumBase;
    assert Rep('0', -3) == [] && Rep(' ', -2) == [];
  }
}
