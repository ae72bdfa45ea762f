/** Reading a directive, told by its characters: flags, width, precision, size and conversion as they are written. */
module Reading {
  import opened Ctype
  import opened Strtoul
  import opened Format
  import opened Doprnt
  import opened RoundTrip
  import opened Agreement

  /** A width or a precision as it is written. */
  datatype Amount = Absent | Written(ds: seq<char>) | Star

  datatype Modifier = None | H | L | LL | Q

  predicate Decimals(ds: seq<char>) {
    forall i :: 0 <= i < |ds| ==> '0' <= ds[i] <= '9'
  }

  predicate FlagLetters(fs: seq<char>) {
    forall i :: 0 <= i < |fs| ==> fs[i] in " #-+0"
  }

  /** A width begins with no zero, which would be a flag; a precision may be any digits or none. */
  predicate HeadWritten(fs: seq<char>, w: Amount, p: Amount) {
    && FlagLetters(fs)
    && (w.Written? ==> Decimals(w.ds) && |w.ds| > 0 && w.ds[0] != '0')
    && (p.Written? ==> Decimals(p.ds))
  }

  predicate WellWritten(fs: seq<char>, w: Amount, p: Amount, ch: char) {
    && HeadWritten(fs, w, p)
    && ch != '\0' && !IsDigit(ch) && ch !in " #-+*.hlqL"
  }

  function WidthText(w: Amount): seq<char> {
    match w
    case Absent => ""
    case Written(ds) => ds
    case Star => "*"
  }

  function PrecText(p: Amount): seq<char> {
    match p
    case Absent => ""
    case Written(ds) => "." + ds
    case Star => ".*"
  }

  function SizeText(m: Modifier): seq<char> {
    match m
    case None => ""
    case H => "h"
    case L => "l"
    case LL => "ll"
    case Q => "q"
  }

  /** The directive behind its percent sign, without and with its conversion character. */
  function HeadText(fs: seq<char>, w: Amount, p: Amount, m: Modifier): seq<char> {
    fs + WidthText(w) + PrecText(p) + SizeText(m)
  }

  function DirectiveText(fs: seq<char>, w: Amount, p: Amount, m: Modifier, ch: char): seq<char> {
    HeadText(fs, w, p, m) + [ch]
  }

  /** t stands in fmt at position i. */
  predicate Stands(fmt: seq<char>, i: nat, t: seq<char>) {
    i + |t| <= |fmt| && fmt[i..i + |t|] == t
  }

  lemma StandsParts(fmt: seq<char>, i: nat, t: seq<char>, u: seq<char>)
    requires Stands(fmt, i, t + u)
    ensures Stands(fmt, i, t) && Stands(fmt, i + |t|, u)
  {
    var s := fmt[i..i + |t + u|];
    assert s[..|t|] == t && s[|t|..] == u;
  }

  lemma StandsAt(fmt: seq<char>, i: nat, t: seq<char>, k: nat)
    requires Stands(fmt, i, t) && k < |t|
    ensures fmt[i + k] == t[k]
  {
    assert fmt[i..i + |t|][k] == fmt[i + k];
  }

  function WithFlags(d: Spec, fs: seq<char>): Spec {
    d.(ladjust := d.ladjust || '-' in fs, zeropad := d.zeropad || '0' in fs, alt := d.alt || '#' in fs,
       sign := if '+' in fs then '+' else if ' ' in fs && d.sign == '\0' then ' ' else d.sign)
  }

  lemma OneFlag(fmt: CString, i: nat, args: seq<Arg>, a: nat, d: Spec)
    requires i < |fmt| && fmt[i] in " #-+0"
    ensures StepV(fmt, i, args, a, d) == More(i + 1, a, WithFlags(d, [fmt[i]]))
  {
    assert '-' in [fmt[i]] <==> fmt[i] == '-';
  }

  lemma FlagsJoin(d: Spec, fs: seq<char>, gs: seq<char>)
    ensures WithFlags(WithFlags(d, fs), gs) == WithFlags(d, fs + gs)
  {
  }

  lemma Stepped(fmt: CString, i: nat, args: seq<Arg>, a: nat, d: Spec)
    requires i < |fmt|
    ensures var s := StepV(fmt, i, args, a, d);
            && (s.More? ==> ScanV(fmt, i, args, a, d) == ScanV(fmt, s.fmt, args, s.arg, s.d))
            && (s.Conversion? ==> ScanV(fmt, i, args, a, d) == Scan(fmt[i], d, i + 1, a))
  {
    hide StepV;
  }

  lemma {:induction false} FlagsRead(fmt: CString, i: nat, fs: seq<char>, args: seq<Arg>, a: nat, d: Spec)
    requires Stands(fmt, i, fs) && FlagLetters(fs)
    ensures ScanV(fmt, i, args, a, d) == ScanV(fmt, i + |fs|, args, a, WithFlags(d, fs))
    decreases |fs|
  {
    hide ScanV, StepV, Stands, WithFlags;
    if |fs| > 0 {
      var c, rest := fs[0], fs[1..];
      assert fs == [c] + rest;
      StandsParts(fmt, i, [c], rest);
      StandsAt(fmt, i, fs, 0);
      StandsWithin(fmt, i, fs);
      OneFlag(fmt, i, args, a, d);
      Stepped(fmt, i, args, a, d);
      FlagsRead(fmt, i + 1, rest, args, a, WithFlags(d, [c]));
      FlagsJoin(d, [c], rest);
    } else {
      NoFlags(d);
      assert fs == "";
    }
  }

  lemma StandsWithin(fmt: seq<char>, i: nat, t: seq<char>)
    requires Stands(fmt, i, t)
    ensures i + |t| <= |fmt|
  {
  }

  lemma NoFlags(d: Spec)
    ensures WithFlags(d, "") == d
  {
  }

  lemma DigitsRead(fmt: CString, i: nat, ds: seq<char>)
    requires Stands(fmt, i, ds) && Decimals(ds) && !IsDigit(CharAt(fmt, i + |ds|))
    ensures NumberEnd(fmt, i) == i + |ds| && Number(fmt, i) == NumBase(ds, 10)
  {
    var j := i + |ds|;
    forall k | i <= k < j ensures DigitValue(fmt[k]) < 10 {
      StandsAt(fmt, i, ds, k - i);
    }
    RunEndIs(fmt, i, j, 10);
  }

  function Stars(w: Amount): nat {
    if w.Star? then 1 else 0
  }

  function WithWidth(d: Spec, w: Amount, n: int): Spec {
    match w
    case Absent => d
    case Written(ds) => d.(width := NumBase(ds, 10))
    case Star => if n >= 0 then d.(width := n) else d.(width := -n, ladjust := true)
  }

  lemma DigitStep(fmt: CString, i: nat, args: seq<Arg>, a: nat, d: Spec)
    requires i < |fmt| && '1' <= fmt[i] <= '9'
    ensures StepV(fmt, i, args, a, d) == More(NumberEnd(fmt, i), a, d.(width := Number(fmt, i)))
  {
    hide NumberEnd, Number;
  }

  lemma WidthWritten(fmt: CString, i: nat, ds: seq<char>, args: seq<Arg>, a: nat, d: Spec)
    requires Stands(fmt, i, ds) && Decimals(ds) && |ds| > 0 && ds[0] != '0' && !IsDigit(CharAt(fmt, i + |ds|))
    ensures i < |fmt| && StepV(fmt, i, args, a, d) == More(i + |ds|, a, d.(width := NumBase(ds, 10)))
  {
    hide StepV, NumBase, NumberEnd, Number, Stands;
    StandsWithin(fmt, i, ds);
    StandsAt(fmt, i, ds, 0);
    DigitsRead(fmt, i, ds);
    DigitStep(fmt, i, args, a, d);
  }

  lemma WidthRead(fmt: CString, i: nat, w: Amount, args: seq<Arg>, a: nat, d: Spec)
    requires Stands(fmt, i, WidthText(w)) && !IsDigit(CharAt(fmt, i + |WidthText(w)|))
    requires w.Written? ==> Decimals(w.ds) && |w.ds| > 0 && w.ds[0] != '0'
    ensures ScanV(fmt, i, args, a, d) ==
            ScanV(fmt, i + |WidthText(w)|, args, a + Stars(w), WithWidth(d, w, IntArg(args, a)))
  {
    hide ScanV, NumBase, IntArg, Decimals, IsDigit;
    match w
    case Absent =>
    case Written(ds) =>
      WidthWritten(fmt, i, ds, args, a, d);
      Stepped(fmt, i, args, a, d);
    case Star =>
      StandsAt(fmt, i, "*", 0);
      Stepped(fmt, i, args, a, d);
  }

  function WithPrec(d: Spec, p: Amount, n: int): Spec {
    match p
    case Absent => d
    case Written(ds) => d.(prec := NumBase(ds, 10))
    case Star => d.(prec := if n < 0 then -1 else n)
  }

  lemma PointStep(fmt: CString, i: nat, args: seq<Arg>, a: nat, d: Spec)
    requires i < |fmt| && fmt[i] == '.'
    ensures CharAt(fmt, i + 1) == '*' ==>
              StepV(fmt, i, args, a, d) == More(i + 2, a + 1, WithPrec(d, Star, IntArg(args, a)))
    ensures CharAt(fmt, i + 1) != '*' ==>
              StepV(fmt, i, args, a, d) == More(NumberEnd(fmt, i + 1), a, d.(prec := Number(fmt, i + 1)))
  {
    hide NumberEnd, Number, IntArg;
  }

  /** No digit is a star. */
  lemma NoStar(fmt: CString, i: nat, ds: seq<char>)
    requires Stands(fmt, i, ds) && Decimals(ds) && CharAt(fmt, i + |ds|) != '*'
    ensures CharAt(fmt, i) != '*'
  {
    if |ds| > 0 {
      StandsAt(fmt, i, ds, 0);
    }
  }

  lemma PrecWritten(fmt: CString, i: nat, ds: seq<char>, args: seq<Arg>, a: nat, d: Spec)
    requires Stands(fmt, i, "." + ds) && Decimals(ds)
    requires !IsDigit(CharAt(fmt, i + 1 + |ds|)) && CharAt(fmt, i + 1 + |ds|) != '*'
    ensures i < |fmt| && StepV(fmt, i, args, a, d) == More(i + 1 + |ds|, a, WithPrec(d, Written(ds), 0))
  {
    hide StepV, NumBase, NumberEnd, Number, Stands, Decimals, IsDigit;
    StandsWithin(fmt, i, "." + ds);
    StandsAt(fmt, i, "." + ds, 0);
    StandsParts(fmt, i, ".", ds);
    PointStep(fmt, i, args, a, d);
    DigitsRead(fmt, i + 1, ds);
    NoStar(fmt, i + 1, ds);
  }

  lemma PrecRead(fmt: CString, i: nat, p: Amount, args: seq<Arg>, a: nat, d: Spec)
    requires Stands(fmt, i, PrecText(p))
    requires !IsDigit(CharAt(fmt, i + |PrecText(p)|)) && CharAt(fmt, i + |PrecText(p)|) != '*'
    requires p.Written? ==> Decimals(p.ds)
    ensures ScanV(fmt, i, args, a, d) ==
            ScanV(fmt, i + |PrecText(p)|, args, a + Stars(p), WithPrec(d, p, IntArg(args, a)))
  {
    hide ScanV, StepV, NumBase, NumberEnd, Number, IntArg, Stands, Decimals, IsDigit;
    match p
    case Absent =>
    case Written(ds) =>
      PrecWritten(fmt, i, ds, args, a, d);
      Stepped(fmt, i, args, a, d);
    case Star =>
      StandsWithin(fmt, i, ".*");
      StandsAt(fmt, i, ".*", 0);
      StandsAt(fmt, i, ".*", 1);
      PointStep(fmt, i, args, a, d);
      Stepped(fmt, i, args, a, d);
  }

  function WithSize(d: Spec, m: Modifier): Spec {
    match m
    case None => d
    case H => d.(short := true)
    case L => d.(long := true)
    case LL => d.(quad := true)
    case Q => d.(quad := true)
  }

  lemma SizeRead(fmt: CString, i: nat, m: Modifier, args: seq<Arg>, a: nat, d: Spec)
    requires Stands(fmt, i, SizeText(m)) && CharAt(fmt, i + |SizeText(m)|) != 'l'
    ensures ScanV(fmt, i, args, a, d) == ScanV(fmt, i + |SizeText(m)|, args, a, WithSize(d, m))
  {
    hide ScanV;
    if m != None {
      StandsAt(fmt, i, SizeText(m), 0);
      if m == LL {
        StandsAt(fmt, i, SizeText(m), 1);
      }
      Stepped(fmt, i, args, a, d);
      assert StepV(fmt, i, args, a, d) == More(i + |SizeText(m)|, a, WithSize(d, m));
    }
  }

  lemma ConversionRead(fmt: CString, i: nat, ch: char, args: seq<Arg>, a: nat, d: Spec)
    requires i < |fmt| && fmt[i] == ch && !IsDigit(ch) && ch !in " #-+*.hlqL"
    ensures ScanV(fmt, i, args, a, d) == Scan(ch, d, i + 1, a)
  {
    hide ScanV;
    Stepped(fmt, i, args, a, d);
  }

  lemma Next(fmt: seq<char>, i: nat, t: seq<char>, ch: char)
    requires Stands(fmt, i, t + [ch])
    ensures CharAt(fmt, i) == if |t| > 0 then t[0] else ch
  {
    StandsAt(fmt, i, t + [ch], 0);
  }

  lemma FromTheRight(a: seq<char>, b: seq<char>, c: seq<char>, d: seq<char>)
    ensures a + b + c + d == a + (b + (c + d))
  {
  }

  lemma Grouped(x: seq<char>, y: seq<char>, z: seq<char>)
    ensures x + (y + z) == x + y + z
  {
  }

  /** Where the parts of a directive stand. */
  lemma PartsStand(fmt: CString, i: nat, fs: seq<char>, w: seq<char>, p: seq<char>, m: seq<char>, ch: char)
    requires Stands(fmt, i, fs + w + p + m + [ch])
    ensures Stands(fmt, i, fs) && Stands(fmt, i + |fs|, w) && Stands(fmt, i + |fs| + |w|, p)
    ensures Stands(fmt, i + |fs| + |w| + |p|, m) && Stands(fmt, i + |fs| + |w| + |p| + |m|, [ch])
    ensures Stands(fmt, i + |fs| + |w|, p + m + [ch]) && Stands(fmt, i + |fs| + |w| + |p|, m + [ch])
  {
    hide Stands;
    FromTheRight(fs, w, p, m + [ch]);
    Grouped(p, m, [ch]);
    Grouped(fs + w + p, m, [ch]);
    StandsParts(fmt, i, fs, w + (p + m + [ch]));
    StandsParts(fmt, i + |fs|, w, p + m + [ch]);
    StandsParts(fmt, i + |fs| + |w|, p, m + [ch]);
    StandsParts(fmt, i + |fs| + |w| + |p|, m, [ch]);
  }

  /** What follows each of them. */
  lemma PartsFollow(fmt: CString, k: nat, p: Amount, m: Modifier, ch: char)
    requires Stands(fmt, k, PrecText(p) + SizeText(m) + [ch]) && Stands(fmt, k + |PrecText(p)|, SizeText(m) + [ch])
    requires Stands(fmt, k + |PrecText(p)| + |SizeText(m)|, [ch]) && !IsDigit(ch) && ch != '*' && ch != 'l'
    ensures var l := k + |PrecText(p)|;
            && !IsDigit(CharAt(fmt, k)) && !IsDigit(CharAt(fmt, l)) && CharAt(fmt, l) != '*'
            && CharAt(fmt, l + |SizeText(m)|) == ch && l + |SizeText(m)| < |fmt|
  {
    var P, S := PrecText(p), SizeText(m);
    StandsWithin(fmt, k + |P| + |S|, [ch]);
    StandsAt(fmt, k + |P| + |S|, [ch], 0);
    hide Stands;
    Next(fmt, k, P + S, ch);
    Next(fmt, k + |P|, S, ch);
    assert |P| > 0 ==> (P + S)[0] == '.';
    assert |P| == 0 ==> P + S == S;
  }

  /** What a directive asks for, its stars standing for n and n': a minus sign, or a negative width among the arguments,
      adjusts to the left; a 0 pads with zeroes; a # asks for the alternate form; a plus wins over a blank; a negative
      precision is none. */
  ghost predicate Asked(d: Spec, fs: seq<char>, w: Amount, p: Amount, m: Modifier, n: int, n': int) {
    && (d.ladjust <==> '-' in fs || (w.Star? && n < 0))
    && (d.zeropad <==> '0' in fs) && (d.alt <==> '#' in fs)
    && (d.sign == if '+' in fs then '+' else if ' ' in fs then ' ' else '\0')
    && (d.quad <==> m == LL || m == Q) && (d.long <==> m == L) && (d.short <==> m == H)
    && (d.width == match w
                   case Absent => 0
                   case Written(ds) => NumBase(ds, 10)
                   case Star => if n < 0 then -n else n)
    && (d.prec == match p
                  case Absent => -1
                  case Written(ds) => NumBase(ds, 10)
                  case Star => if n' < 0 then -1 else n')
  }

  lemma FlagsAsked(fs: seq<char>)
    ensures var d := WithFlags(PLAIN, fs);
            && (d.ladjust <==> '-' in fs) && (d.zeropad <==> '0' in fs) && (d.alt <==> '#' in fs)
            && (d.sign == if '+' in fs then '+' else if ' ' in fs then ' ' else '\0')
            && d == PLAIN.(ladjust := d.ladjust, zeropad := d.zeropad, alt := d.alt, sign := d.sign)
  {
  }

  lemma AskedFor(fs: seq<char>, w: Amount, p: Amount, m: Modifier, n: int, n': int)
    ensures Asked(WithSize(WithPrec(WithWidth(WithFlags(PLAIN, fs), w, n), p, n'), m), fs, w, p, m, n, n')
  {
    hide NumBase, WithFlags, WithSize, WithPrec;
    FlagsAsked(fs);
    var d := WithFlags(PLAIN, fs);
    var d' := WithWidth(d, w, n);
    assert d' == d.(width := d'.width, ladjust := d'.ladjust);
    hide WithWidth;
    PrecAndSize(d', p, n', m);
  }

  lemma PrecAndSize(d: Spec, p: Amount, n: int, m: Modifier)
    requires !d.quad && !d.long && !d.short && d.prec == -1
    ensures var d' := WithPrec(d, p, n);
            && d' == d.(prec := match p
                                case Absent => -1
                                case Written(ds) => NumBase(ds, 10)
                                case Star => if n < 0 then -1 else n)
            && WithSize(d', m) == d'.(quad := m == LL || m == Q, long := m == L, short := m == H)
  {
    hide NumBase;
  }

  function SpecOf(fs: seq<char>, w: Amount, p: Amount, m: Modifier, n: int, n': int): Spec {
    WithSize(WithPrec(WithWidth(WithFlags(PLAIN, fs), w, n), p, n'), m)
  }

  /** Flags, width, precision and size read one after another. */
  lemma PartsRead(fmt: CString, i: nat, args: seq<Arg>, a: nat, fs: seq<char>, w: Amount, p: Amount, m: Modifier)
    requires HeadWritten(fs, w, p)
    requires Stands(fmt, i, fs) && Stands(fmt, i + |fs|, WidthText(w))
    requires var k := i + |fs| + |WidthText(w)|;
             var l := k + |PrecText(p)|;
             && Stands(fmt, k, PrecText(p)) && Stands(fmt, l, SizeText(m))
             && !IsDigit(CharAt(fmt, k)) && !IsDigit(CharAt(fmt, l)) && CharAt(fmt, l) != '*'
             && CharAt(fmt, l + |SizeText(m)|) != 'l'
    ensures var b := a + Stars(w);
            var e := i + |fs| + |WidthText(w)| + |PrecText(p)| + |SizeText(m)|;
            && e <= |fmt|
            && ScanV(fmt, i, args, a, PLAIN) ==
               ScanV(fmt, e, args, b + Stars(p), SpecOf(fs, w, p, m, IntArg(args, a), IntArg(args, b)))
  {
    var j := i + |fs|;
    var k := j + |WidthText(w)|;
    var l := k + |PrecText(p)|;
    hide ScanV, Stands, NumBase, IntArg, WithFlags, WithWidth, WithPrec, WithSize, Decimals, FlagLetters, IsDigit;
    hide WidthText, PrecText, SizeText, Stars;
    var d := WithFlags(PLAIN, fs);
    FlagsRead(fmt, i, fs, args, a, PLAIN);
    WidthRead(fmt, j, w, args, a, d);
    var d', b := WithWidth(d, w, IntArg(args, a)), a + Stars(w);
    PrecRead(fmt, k, p, args, b, d');
    SizeRead(fmt, l, m, args, b + Stars(p), WithPrec(d', p, IntArg(args, b)));
    StandsWithin(fmt, l, SizeText(m));
  }

  lemma DirectiveScanned(fmt: CString, i: nat, args: seq<Arg>, a: nat,
                         fs: seq<char>, w: Amount, p: Amount, m: Modifier, ch: char)
    requires WellWritten(fs, w, p, ch) && Stands(fmt, i, DirectiveText(fs, w, p, m, ch))
    ensures i + |DirectiveText(fs, w, p, m, ch)| <= |fmt|
    ensures var b := a + Stars(w);
            ScanV(fmt, i, args, a, PLAIN) ==
            Scan(ch, SpecOf(fs, w, p, m, IntArg(args, a), IntArg(args, b)), i + |DirectiveText(fs, w, p, m, ch)|,
                 b + Stars(p))
  {
    var k := i + |fs| + |WidthText(w)|;
    var e := k + |PrecText(p)| + |SizeText(m)|;
    hide ScanV, Stands, HeadWritten, IntArg, WithFlags, WithWidth, WithPrec, WithSize, WidthText, PrecText, SizeText;
    hide Stars, IsDigit, SpecOf;
    PartsStand(fmt, i, fs, WidthText(w), PrecText(p), SizeText(m), ch);
    StandsWithin(fmt, i, DirectiveText(fs, w, p, m, ch));
    PartsFollow(fmt, k, p, m, ch);
    PartsRead(fmt, i, args, a, fs, w, p, m);
    ConversionRead(fmt, e, ch, args, a + Stars(w) + Stars(p),
                   SpecOf(fs, w, p, m, IntArg(args, a), IntArg(args, a + Stars(w))));
  }

  /** A directive is read as it is written, every star taking an argument. */
  lemma DirectiveRead(fmt: CString, i: nat, args: seq<Arg>, a: nat,
                      fs: seq<char>, w: Amount, p: Amount, m: Modifier, ch: char)
    requires WellWritten(fs, w, p, ch) && Stands(fmt, i, DirectiveText(fs, w, p, m, ch))
    ensures var r := ScanV(fmt, i, args, a, PLAIN);
            var b := if w.Star? then a + 1 else a;
            && r.ch == ch && r.fmt == i + |DirectiveText(fs, w, p, m, ch)|
            && r.arg == (if p.Star? then b + 1 else b)
            && Asked(r.d, fs, w, p, m, IntArg(args, a), IntArg(args, b))
  {
    DirectiveScanned(fmt, i, args, a, fs, w, p, m, ch);
    AskedFor(fs, w, p, m, IntArg(args, a), IntArg(args, a + Stars(w)));
    hide ScanV, Stands, WellWritten, DirectiveText, IntArg, Asked, WithFlags, WithWidth, WithPrec, WithSize;
  }

  /** A directive that the end of the format cuts off has no conversion character. */
  lemma HeadRead(fmt: CString, i: nat, args: seq<Arg>, a: nat, fs: seq<char>, w: Amount, p: Amount, m: Modifier)
    requires HeadWritten(fs, w, p)
    requires Stands(fmt, i, HeadText(fs, w, p, m)) && i + |HeadText(fs, w, p, m)| == |fmt|
    ensures ScanV(fmt, i, args, a, PLAIN).ch == '\0'
  {
    var k := i + |fs| + |WidthText(w)|;
    HeadStands(fmt, i, fs, WidthText(w), PrecText(p), SizeText(m));
    hide Stands, HeadWritten, WithFlags, WithWidth, WithPrec, WithSize, IntArg, WidthText, PrecText, SizeText, IsDigit;
    HeadFollows(fmt, k, p, m);
    PartsRead(fmt, i, args, a, fs, w, p, m);
  }

  lemma HeadStands(fmt: CString, i: nat, fs: seq<char>, w: seq<char>, p: seq<char>, m: seq<char>)
    requires Stands(fmt, i, fs + w + p + m)
    ensures Stands(fmt, i, fs) && Stands(fmt, i + |fs|, w) && Stands(fmt, i + |fs| + |w|, p)
    ensures Stands(fmt, i + |fs| + |w| + |p|, m)
  {
    hide Stands;
    FromTheRight(fs, w, p, m);
    StandsParts(fmt, i, fs, w + (p + m));
    StandsParts(fmt, i + |fs|, w, p + m);
    StandsParts(fmt, i + |fs| + |w|, p, m);
  }

  lemma HeadFollows(fmt: CString, k: nat, p: Amount, m: Modifier)
    requires Stands(fmt, k, PrecText(p)) && Stands(fmt, k + |PrecText(p)|, SizeText(m))
    requires k + |PrecText(p)| + |SizeText(m)| == |fmt|
    ensures var l := k + |PrecText(p)|;
            && !IsDigit(CharAt(fmt, k)) && !IsDigit(CharAt(fmt, l)) && CharAt(fmt, l) != '*'
            && CharAt(fmt, l + |SizeText(m)|) == '\0'
  {
    var P, S := PrecText(p), SizeText(m);
    if |P| > 0 {
      StandsAt(fmt, k, P, 0);
    }
    if |S| > 0 {
      StandsAt(fmt, k + |P|, S, 0);
    }
    hide Stands;
  }

  /** The second formatter reads it alike, but for the quad modifiers it does not have. */
  lemma DirectiveReadD(fmt: CString, i: nat, args: seq<Arg>, a: nat,
                       fs: seq<char>, w: Amount, p: Amount, m: Modifier, ch: char)
    requires WellWritten(fs, w, p, ch) && Stands(fmt, i, DirectiveText(fs, w, p, m, ch)) && m != LL && m != Q
    ensures ScanD(fmt, i, args, a, PLAIN) == ScanV(fmt, i, args, a, PLAIN)
  {
    StandsWithin(fmt, i, DirectiveText(fs, w, p, m, ch));
    DirectiveRead(fmt, i, args, a, fs, w, p, m, ch);
    hide ScanV, ScanD, Stands, DirectiveText;
    ScansAgree(fmt, i, args, a, PLAIN);
  }
}
