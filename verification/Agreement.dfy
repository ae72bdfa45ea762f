/** Where the two formatters print the same text, directive by directive and for whole formats. */
module Agreement {
  import opened Strtoul
  import opened Format
  import opened Doprnt
  import opened RoundTrip

  /** A quad flag stays once it is set. */
  lemma {:induction false} QuadStays(fmt: CString, i: nat, args: seq<Arg>, a: nat, d: Spec)
    requires i <= |fmt| && d.quad
    ensures ScanV(fmt, i, args, a, d).d.quad
    decreases |fmt| - i
  {
    hide CommonStep;
    if i < |fmt| {
      match StepV(fmt, i, args, a, d)
      case More(i', a', d') => QuadStays(fmt, i', args, a', d');
      case Conversion =>
    }
  }

  /** `_doprntx` knows no quad modifier and never stops at an L. */
  lemma {:induction false} DialectD(fmt: CString, i: nat, args: seq<Arg>, a: nat, d: Spec)
    requires i <= |fmt|
    ensures ScanD(fmt, i, args, a, d).ch != 'L' && ScanD(fmt, i, args, a, d).d.quad == d.quad
    decreases |fmt| - i
  {
    hide CommonStep;
    if i < |fmt| {
      match StepD(fmt, i, args, a, d)
      case More(i', a', d') => DialectD(fmt, i', args, a', d');
      case Conversion =>
    }
  }

  /** Both read a directive alike exactly when it uses neither quad modifiers nor L. */
  lemma {:induction false} ScansAgree(fmt: CString, i: nat, args: seq<Arg>, a: nat, d: Spec)
    requires i <= |fmt| && !d.quad
    ensures ScanV(fmt, i, args, a, d) == ScanD(fmt, i, args, a, d) <==>
            !ScanV(fmt, i, args, a, d).d.quad && ScanV(fmt, i, args, a, d).ch != 'L'
    decreases |fmt| - i
  {
    DialectD(fmt, i, args, a, d);
    if i < |fmt| {
      match StepV(fmt, i, args, a, d)
      case More(i', a', d') =>
        if d'.quad {
          QuadStays(fmt, i', args, a', d');
        } else {
          ScansAgree(fmt, i', args, a', d');
        }
      case Conversion =>
    }
  }

  // One field.

  /** The only thing the layouts differ in: whether a prefix counts against the precision. */
  predicate PrefixMeetsPrecision(x: Item) {
    |x.prefix| > 0 && x.dprec > |x.body|
  }

  /** An item as the converters make them. */
  ghost predicate WellMade(x: Item) {
    && (|x.prefix| > 0 ==> x.prefix[|x.prefix| - 1] != '0')
    && ' ' !in x.body && (x.zeropad ==> x.dprec <= 0)
  }

  lemma LayoutsAgree(x: Item, d: Spec)
    requires WellMade(x)
    ensures LayoutV(x, d) == LayoutD(x, d) <==> !PrefixMeetsPrecision(x)
  {
    if PrefixMeetsPrecision(x) {
      if |LayoutV(x, d)| == |LayoutD(x, d)| {
        if d.ladjust {
          LeftDiffers(x, d);
        } else {
          RightDiffers(x, d);
        }
      }
    } else {
      assert RealSizeV(x) == RealSizeD(x);
      assert Rep('0', x.dprec - |x.body|) == Rep('0', x.dprec - FieldSizeD(x));
    }
  }

  lemma LayoutsLeft(x: Item, d: Spec)
    requires d.ladjust
    ensures LayoutV(x, d) == x.prefix + Rep('0', x.dprec - |x.body|) + x.body + Rep(' ', d.width - RealSizeV(x))
    ensures LayoutD(x, d) == x.prefix + Rep('0', x.dprec - FieldSizeD(x)) + x.body + Rep(' ', d.width - RealSizeD(x))
  {
  }

  lemma LayoutsRight(x: Item, d: Spec)
    requires !d.ladjust && !x.zeropad
    ensures LayoutV(x, d) == (Rep(' ', d.width - RealSizeV(x)) + x.prefix) + Rep('0', x.dprec - |x.body|) + x.body + []
    ensures LayoutD(x, d) == Rep(' ', d.width - RealSizeD(x)) + x.prefix + Rep('0', x.dprec - FieldSizeD(x)) + x.body
  {
  }

  /** Left-adjusted: the shorter text ends, in blanks, where the longer one still has digits. */
  lemma LeftDiffers(x: Item, d: Spec)
    requires WellMade(x) && PrefixMeetsPrecision(x) && d.ladjust
    requires |LayoutV(x, d)| == |LayoutD(x, d)|
    ensures LayoutV(x, d) != LayoutD(x, d)
  {
    LayoutsLeft(x, d);
    var v, w, i := LayoutV(x, d), LayoutD(x, d), RealSizeD(x);
    var zeroes := Rep('0', x.dprec - |x.body|);
    hide LayoutV, LayoutD;
    Digits3(v, x.prefix, zeroes, x.body, Rep(' ', d.width - RealSizeV(x)));
    Digits3(w, x.prefix, Rep('0', x.dprec - FieldSizeD(x)), x.body, Rep(' ', d.width - i));
    assert w[i] == ' ';
    assert v[i] != ' ';
  }

  lemma Digits3(s: seq<char>, prefix: seq<char>, zeroes: seq<char>, body: seq<char>, blanks: seq<char>)
    requires s == prefix + zeroes + body + blanks
    ensures |s| == |prefix| + |zeroes| + |body| + |blanks|
    ensures forall i :: |prefix| <= i < |prefix| + |zeroes| ==> s[i] == zeroes[i - |prefix|]
    ensures forall i :: |prefix| + |zeroes| <= i < |s| - |blanks| ==> s[i] == body[i - |prefix| - |zeroes|]
    ensures forall i :: |s| - |blanks| <= i < |s| ==> s[i] == blanks[i - (|s| - |blanks|)]
  {
  }

  /** Right-adjusted: the shorter text still has its prefix where the longer one has a zero. */
  lemma RightDiffers(x: Item, d: Spec)
    requires WellMade(x) && PrefixMeetsPrecision(x) && !d.ladjust
    requires |LayoutV(x, d)| == |LayoutD(x, d)|
    ensures LayoutV(x, d) != LayoutD(x, d)
  {
    LayoutsRight(x, d);
    var v, w := LayoutV(x, d), LayoutD(x, d);
    hide LayoutV, LayoutD;
    var zw := Rep('0', x.dprec - FieldSizeD(x));
    var i := |w| - |x.body| - |zw| - 1;
    Digits3(v, Rep(' ', d.width - RealSizeV(x)) + x.prefix, Rep('0', x.dprec - |x.body|), x.body, []);
    assert w[i] == x.prefix[|x.prefix| - 1];
    assert v[i] == '0';
  }

  /** Both take the argument for the same number. */
  predicate SameNumber(r: Scan, args: seq<Arg>)
    requires IsSigned(r.ch) || IsUnsigned(r.ch)
  {
    var v := NumArg(args, r.arg);
    if IsSigned(r.ch) then Signed(v, BitsV(r.ch, r.d)) == Signed(ValueD(r, args), 32)
    else Unsigned(v, BitsV(r.ch, r.d)) == ValueD(r, args)
  }

  /** Size modifiers under which the arguments are read alike. */
  lemma PlainSizesSameNumber(r: Scan, args: seq<Arg>)
    requires IsSigned(r.ch) || IsUnsigned(r.ch)
    requires !r.d.quad
    requires !r.d.short || (IsSigned(r.ch) && r.ch != 'D' && !r.d.long)
    ensures SameNumber(r, args)
  {
  }

  /** Exactly the conversions whose fields come out the same. */
  predicate SameField(r: Scan, args: seq<Arg>) {
    if r.ch == 'n' || r.ch == 'c' || r.ch == 's' then true
    else if IsSigned(r.ch) || IsUnsigned(r.ch) then SameNumber(r, args) && !PrefixMeetsPrecision(ItemV(r, args))
    else r.ch != 'p' && r.d.width <= 1
  }

  lemma FieldsAgree(r: Scan, args: seq<Arg>)
    requires r.ch != '\0' && Proper(r.d)
    ensures FieldV(r, args) == FieldD(r, args, false) <==> SameField(r, args)
  {
    if IsSigned(r.ch) || IsUnsigned(r.ch) {
      if SameNumber(r, args) {
        ItemsEqual(r, args);
        MadeWell(r, args);
        LayoutsAgree(ItemV(r, args), r.d);
      } else {
        OtherNumber(r, args);
      }
    } else if r.ch == 'c' || r.ch == 's' {
      LayoutsWithoutPrefix(ItemV(r, args), r.d);
    } else if r.ch == 'p' {
      PointersDiffer(r, args);
    }
  }

  /** The second layout is the first with the prefix taken out of the precision. */
  lemma LayoutDAsV(x: Item, d: Spec)
    ensures LayoutD(x, d) == LayoutV(x.(dprec := x.dprec - |x.prefix|), d)
  {
  }

  /** The prefix of a number of magnitude u: a sign or blank, or 0x before digits. */
  predicate FitPrefix(prefix: seq<char>, u: nat, b: nat) {
    prefix in {[], " ", "+", "-"} || (prefix in {"0x", "0X"} && b == 16 && u > 0)
  }

  /** What either layout of a number reads back as, in its own base. */
  lemma LaidOutReadsBack(x: Item, u: nat, ch: char, d: Spec)
    requires (IsSigned(ch) || IsUnsigned(ch)) && x.body == Body(u, ch, d) && FitPrefix(x.prefix, u, BaseOf(ch))
    ensures Magnitude(LayoutV(x, d), BaseOf(ch)) == u == Magnitude(LayoutD(x, d), BaseOf(ch))
    ensures u > 0 ==> ReadHead(LayoutV(x, d), BaseOf(ch)).neg == (x.prefix == "-")
    ensures u > 0 ==> ReadHead(LayoutD(x, d), BaseOf(ch)).neg == (x.prefix == "-")
  {
    BodyValue(u, ch, d);
    LayoutDAsV(x, d);
    hide LayoutV, LayoutD, Body, Magnitude, ReadHead, DigitValue, NumBase;
    MagnitudeOf(x, d, BaseOf(ch), BaseOf(ch));
    MagnitudeOf(x.(dprec := x.dprec - |x.prefix|), d, BaseOf(ch), BaseOf(ch));
  }

  function WithSign(u: nat, neg: bool): int {
    if neg then -(u as int) else u
  }

  /** The number that `_vfprintf_r` prints: magnitude, and whether it is negative. */
  lemma NumberV(r: Scan, args: seq<Arg>) returns (u: nat, neg: bool)
    requires (IsSigned(r.ch) || IsUnsigned(r.ch)) && Proper(r.d)
    ensures ItemV(r, args).body == Body(u, r.ch, r.d) && FitPrefix(ItemV(r, args).prefix, u, BaseOf(r.ch))
    ensures neg <==> ItemV(r, args).prefix == "-"
    ensures var v := NumArg(args, r.arg);
            WithSign(u, neg) == if IsSigned(r.ch) then Signed(v, BitsV(r.ch, r.d)) else Unsigned(v, BitsV(r.ch, r.d))
  {
    hide Body, Signed, Unsigned, BitsV;
    var v := NumArg(args, r.arg);
    var n := if IsSigned(r.ch) then Signed(v, BitsV(r.ch, r.d)) else Unsigned(v, BitsV(r.ch, r.d));
    UnsignedIsNat(v, BitsV(r.ch, r.d));
    u, neg := if n < 0 then -n else n, n < 0;
  }

  lemma UnsignedIsNat(v: int, bits: nat)
    requires bits == 16 || bits == 32 || bits == 64
    ensures Unsigned(v, bits) >= 0
  {
  }

  /** The number that `_doprntx` prints. */
  lemma NumberD(r: Scan, args: seq<Arg>) returns (u: nat, neg: bool)
    requires (IsSigned(r.ch) || IsUnsigned(r.ch)) && Proper(r.d)
    ensures ItemD(r, args, false).body == Body(u, r.ch, r.d)
    ensures FitPrefix(ItemD(r, args, false).prefix, u, BaseOf(r.ch))
    ensures neg <==> ItemD(r, args, false).prefix == "-"
    ensures WithSign(u, neg) == if IsSigned(r.ch) then Signed(ValueD(r, args), 32) else ValueD(r, args)
  {
    var w := ValueD(r, args);
    SignedOf(w);
    hide Digits, Signed, Unsigned, ValueD;
    neg := IsSigned(r.ch) && w >= 0x8000_0000;
    u := if neg then 0x1_0000_0000 - w else w;
  }

  /** Different numbers do not look alike. */
  lemma OtherNumber(r: Scan, args: seq<Arg>)
    requires (IsSigned(r.ch) || IsUnsigned(r.ch)) && Proper(r.d) && !SameNumber(r, args)
    ensures FieldV(r, args) != FieldD(r, args, false)
  {
    var u, neg := NumberV(r, args);
    var w, neg' := NumberD(r, args);
    hide Body, Signed, Unsigned, BitsV, ValueD, ItemV, ItemD, LayoutV, LayoutD, Magnitude, ReadHead, FitPrefix;
    LaidOutReadsBack(ItemV(r, args), u, r.ch, r.d);
    LaidOutReadsBack(ItemD(r, args, false), w, r.ch, r.d);
  }

  /** Only one of the two marks a pointer with 0x. */
  lemma PointersDiffer(r: Scan, args: seq<Arg>)
    requires r.ch == 'p' && Proper(r.d)
    ensures FieldV(r, args) != FieldD(r, args, false)
  {
    var v, w := ItemV(r, args), ItemD(r, args, false);
    assert v.prefix == "0x" && w.prefix == [];
    assert forall i :: 0 <= i < |w.body| ==> DigitValue(w.body[i]) < 16;
    Has(v, r.d, 1);
    HasNoX(w, r.d);
  }

  lemma Has(x: Item, d: Spec, i: nat)
    requires i < |x.prefix|
    ensures x.prefix[i] in LayoutV(x, d)
  {
    var pad := d.width - RealSizeV(x);
    var left := if !d.ladjust && !x.zeropad then Rep(' ', pad) else [];
    var right := (if !d.ladjust && x.zeropad then Rep('0', pad) else []) + Rep('0', x.dprec - |x.body|) + x.body
                 + (if d.ladjust then Rep(' ', pad) else []);
    assert LayoutV(x, d) == left + x.prefix + right;
    assert (left + x.prefix + right)[|left| + i] == x.prefix[i];
  }

  lemma HasNoX(x: Item, d: Spec)
    requires x.prefix == [] && forall i :: 0 <= i < |x.body| ==> DigitValue(x.body[i]) < 16
    ensures 'x' !in LayoutD(x, d)
  {
    var pad := d.width - RealSizeD(x);
    var left := if !d.ladjust && !x.zeropad then Rep(' ', pad) else [];
    var zeroes := (if !d.ladjust && x.zeropad then Rep('0', pad) else []) + Rep('0', x.dprec - FieldSizeD(x));
    var right := if d.ladjust then Rep(' ', pad) else [];
    assert LayoutD(x, d) == left + zeroes + x.body + right;
    assert 'x' !in left && 'x' !in zeroes && 'x' !in x.body && 'x' !in right;
  }

  lemma LayoutsWithoutPrefix(x: Item, d: Spec)
    requires x.prefix == []
    ensures LayoutV(x, d) == LayoutD(x, d)
  {
  }

  lemma SignedOf(u: nat)
    requires u < 0x1_0000_0000
    ensures Signed(u, 32) == if u < 0x8000_0000 then u else u - 0x1_0000_0000
  {
  }

  lemma ItemsEqual(r: Scan, args: seq<Arg>)
    requires (IsSigned(r.ch) || IsUnsigned(r.ch)) && SameNumber(r, args)
    ensures ItemV(r, args) == ItemD(r, args, false)
  {
    var u := ValueD(r, args);
    SignedOf(u);
    hide Digits, Signed, Unsigned, ValueD, BitsV;
  }

  lemma MadeWell(r: Scan, args: seq<Arg>)
    requires (IsSigned(r.ch) || IsUnsigned(r.ch)) && Proper(r.d)
    ensures WellMade(ItemV(r, args))
  {
    var u, neg := NumberV(r, args);
    BodyValue(u, r.ch, r.d);
    NoBlank(Body(u, r.ch, r.d), BaseOf(r.ch));
    hide Body, Signed, Unsigned, BitsV;
  }

  lemma NoBlank(s: seq<char>, b: nat)
    requires b <= 16 && forall i :: 0 <= i < |s| ==> DigitValue(s[i]) < b
    ensures ' ' !in s
  {
  }

  // Whole formats.

  /** A directive on which the two formatters agree and after which they stay in step. */
  predicate Agreeable(r: Scan, args: seq<Arg>) {
    && !r.d.quad && r.ch != 'L'
    && SameField(r, args) && !UpperAfter(r, args, false)
  }

  /** Every directive of the format is agreeable. */
  predicate AgreeableFormat(fmt: CString, i: nat, args: seq<Arg>, a: nat)
    requires i <= |fmt|
    decreases |fmt| - i
  {
    var j := PercentAt(fmt, i);
    j == |fmt| ||
    var r := ScanV(fmt, j + 1, args, a, PLAIN);
    if r.ch == '\0' then !r.d.quad
    else Agreeable(r, args) && AgreeableFormat(fmt, r.fmt, args, NextArg(r))
  }

  /** Literals with newlines as CR LF, fields as they are. */
  function FlattenCrlf(ps: seq<Piece>): seq<char> {
    if |ps| == 0 then []
    else (if ps[0].Literal? then Crlf(ps[0].text) else ps[0].text) + FlattenCrlf(ps[1..])
  }

  /** `_doprntx` prints what `_vfprintf_r` prints, literal newlines apart. */
  lemma {:induction false} FormattersAgree(fmt: CString, i: nat, args: seq<Arg>, a: nat)
    requires i <= |fmt| && AgreeableFormat(fmt, i, args, a)
    ensures RenderD(fmt, i, args, a, false) == FlattenCrlf(PiecesV(fmt, i, args, a))
    decreases |fmt| - i
  {
    hide ScanV, ScanD, FieldV, FieldD, SameField, SameNumber, UpperAfter;
    var j := PercentAt(fmt, i);
    var lit := Literal(fmt[i..j]);
    if j == |fmt| {
      FlattenOne(lit);
    } else {
      var r := ScanV(fmt, j + 1, args, a, PLAIN);
      ScansAgree(fmt, j + 1, args, a, PLAIN);
      if r.ch == '\0' {
        FlattenOne(lit);
      } else {
        ScanProper(fmt, j + 1, args, a, PLAIN);
        FieldsAgree(r, args);
        FormattersAgree(fmt, r.fmt, args, NextArg(r));
        FlattenTwo(lit, Field(FieldV(r, args)), PiecesV(fmt, r.fmt, args, NextArg(r)));
      }
    }
  }

  lemma FlattenOne(p: Piece)
    ensures FlattenCrlf([p]) == if p.Literal? then Crlf(p.text) else p.text
  {
    assert [p][1..] == [];
  }

  lemma FlattenTwo(p: Piece, q: Piece, ps: seq<Piece>)
    ensures FlattenCrlf([p] + ([q] + ps)) ==
            (if p.Literal? then Crlf(p.text) else p.text)
            + ((if q.Literal? then Crlf(q.text) else q.text) + FlattenCrlf(ps))
  {
    assert ([p] + ([q] + ps))[1..] == [q] + ps;
    assert ([q] + ps)[1..] == ps;
  }

  /** The everyday directives: c d i o s u x X with any flags and width but no precision on numbers, no h,
      no quad modifier, and a bare %%. */
  predicate Everyday(r: Scan) {
    && !r.d.quad && !r.d.short
    && (r.ch == 'c' || r.ch == 's'
        || ((r.ch == 'd' || r.ch == 'i' || r.ch == 'o' || r.ch == 'u' || r.ch == 'x' || r.ch == 'X') && r.d.prec == -1)
        || (r.ch == '%' && r.d == PLAIN))
  }

  lemma EverydayIsAgreeable(r: Scan, args: seq<Arg>)
    requires Everyday(r)
    ensures Agreeable(r, args)
  {
    if IsSigned(r.ch) || IsUnsigned(r.ch) {
      PlainSizesSameNumber(r, args);
    }
  }

  /** Every directive of the format is an everyday one. */
  predicate EverydayFormat(fmt: CString, i: nat, args: seq<Arg>, a: nat)
    requires i <= |fmt|
    decreases |fmt| - i
  {
    var j := PercentAt(fmt, i);
    j == |fmt| ||
    var r := ScanV(fmt, j + 1, args, a, PLAIN);
    if r.ch == '\0' then !r.d.quad
    else Everyday(r) && EverydayFormat(fmt, r.fmt, args, NextArg(r))
  }

  /** On such formats the two outputs are the same, newlines of the format apart, whatever the arguments. */
  lemma {:induction false} EverydayFormatsAgree(fmt: CString, i: nat, args: seq<Arg>, a: nat)
    requires i <= |fmt| && EverydayFormat(fmt, i, args, a)
    ensures RenderD(fmt, i, args, a, false) == FlattenCrlf(PiecesV(fmt, i, args, a))
  {
    hide RenderD, PiecesV;
    EverydayFormatIsAgreeable(fmt, i, args, a);
    FormattersAgree(fmt, i, args, a);
  }

  lemma {:induction false} EverydayFormatIsAgreeable(fmt: CString, i: nat, args: seq<Arg>, a: nat)
    requires i <= |fmt| && EverydayFormat(fmt, i, args, a)
    ensures AgreeableFormat(fmt, i, args, a)
    decreases |fmt| - i
  {
    hide ScanV, Everyday, Agreeable;
    var j := PercentAt(fmt, i);
    if j < |fmt| {
      var r := ScanV(fmt, j + 1, args, a, PLAIN);
      if r.ch != '\0' {
        EverydayIsAgreeable(r, args);
        EverydayFormatIsAgreeable(fmt, r.fmt, args, NextArg(r));
      }
    }
  }
}
