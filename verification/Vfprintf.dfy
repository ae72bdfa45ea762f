/** `_vfprintf_r`: fragments of the output are queued in an I/O vector and flushed to the stream. */
module Vfprintf {
  import opened Powers
  import opened Strtoul
  import opened Format
  import opened Streams

  const NIOV := 8
  const PADSIZE := 16
  const BUF := 40

  /** A queued iovec: constant text, part of a padding table, or memory that conversions overwrite. */
  datatype Fragment = Constant(s: seq<char>) | Table(c: char, n: nat) | InBuf(off: nat, len: nat) | InOx | InSign

  // Numbers of at most 64 bits fit the buffer.

  lemma {:induction false} DigitsLength(u: nat, b: nat, upper: bool, n: nat)
    requires 8 <= b <= 16 && 0 < n && u < Pow(8, n)
    ensures |Digits(u, b, upper)| <= n
    decreases n
  {
    if u >= b {
      Quotient(u, b);
      assert Pow(8, n) == 8 * Pow(8, n - 1);
      MulMono(u / b, 8, b);
      assert n > 1 by {
        assert Pow(8, 0) == 1;
      }
      DigitsLength(u / b, b, upper, n - 1);
    }
  }

  lemma FitsBuffer(u: nat, b: nat, upper: bool)
    requires 8 <= b <= 16 && u < 0x1_0000_0000_0000_0000
    ensures |Digits(u, b, upper)| <= 22
  {
    assert Pow(8, 2) == 64;
    PowAdd(8, 2, 2);
    PowAdd(8, 4, 4);
    PowAdd(8, 8, 8);
    PowAdd(8, 16, 4);
    PowAdd(8, 20, 2);
    DigitsLength(u, b, upper, 22);
  }

  /** The digits of u, written backwards from the end of buf: do-while for octal and hexadecimal. */
  method FillByDigits(buf: array<char>, u0: nat, b: nat, upper: bool) returns (cp: nat)
    requires buf.Length >= 22 && 8 <= b <= 16 && u0 < 0x1_0000_0000_0000_0000
    modifies buf
    ensures buf.Length - 22 <= cp < buf.Length && buf[cp..] == Digits(u0, b, upper)
  {
    FitsBuffer(u0, b, upper);
    var u: nat := u0;
    cp := buf.Length;
    while true
      invariant cp <= buf.Length && Digits(u, b, upper) + buf[cp..] == Digits(u0, b, upper)
      decreases u
    {
      DigitsStep(u, b, upper);
      ghost var rest := buf[cp..];
      cp := cp - 1;
      buf[cp] := DigitChar(u % b, upper);
      assert buf[cp..] == [DigitChar(u % b, upper)] + rest;
      u := u / b;
      if u == 0 {
        break;
      }
    }
  }

  lemma DigitsStep(u: nat, b: nat, upper: bool)
    requires 8 <= b <= 16
    ensures 0 <= u % b < b && u / b >= 0 && (u > 0 ==> u / b < u)
    ensures Digits(u, b, upper) == (if u / b == 0 then [] else Digits(u / b, b, upper)) + [DigitChar(u % b, upper)]
  {
    if u < b {
      DivisionUnique(u, b, 0, u);
    } else {
      Quotient(u, b);
    }
  }

  /** Decimal digits: a loop for all but the leading one. */
  method FillDecimal(buf: array<char>, u0: nat) returns (cp: nat)
    requires buf.Length == BUF && u0 < 0x1_0000_0000_0000_0000
    modifies buf
    ensures 18 <= cp < BUF && buf[cp..] == Digits(u0, 10, false)
  {
    FitsBuffer(u0, 10, false);
    var u: nat := u0;
    cp := BUF;
    while u >= 10
      invariant cp <= BUF && Digits(u, 10, false) + buf[cp..] == Digits(u0, 10, false)
      decreases u
    {
      ghost var rest := buf[cp..];
      cp := cp - 1;
      buf[cp] := DigitChar(u % 10, false);
      assert buf[cp..] == [DigitChar(u % 10, false)] + rest;
      u := u / 10;
    }
    ghost var rest := buf[cp..];
    cp := cp - 1;
    buf[cp] := DigitChar(u, false);
    assert buf[cp..] == [DigitChar(u, false)] + rest;
  }

  /** The converted number in buf[cp..], with the octal leading zero; empty for zero at precision zero. */
  method FillNumber(buf: array<char>, u: nat, ch: char, d: Spec) returns (cp: nat)
    requires buf.Length == BUF && u < 0x1_0000_0000_0000_0000
    modifies buf
    ensures cp <= BUF && buf[cp..] == Body(u, ch, d)
  {
    cp := BUF;
    if u != 0 || d.prec != 0 {
      if BaseOf(ch) == 8 {
        cp := FillByDigits(buf, u, 8, ch == 'X');
        if d.alt && buf[cp] != '0' {
          ghost var rest := buf[cp..];
          cp := cp - 1;
          buf[cp] := '0';
          assert buf[cp..] == "0" + rest;
        }
      } else if BaseOf(ch) == 10 {
        DecimalCase(u, ch);
        cp := FillDecimal(buf, u);
      } else {
        cp := FillByDigits(buf, u, 16, ch == 'X');
      }
    }
  }

  lemma {:induction false} DecimalCase(u: nat, ch: char)
    ensures Digits(u, 10, ch == 'X') == Digits(u, 10, false)
    decreases u
  {
    if u >= 10 {
      DecimalCase(u / 10, ch);
    }
  }

  // Reading a directive.

  /** A run of decimal digits, accumulated left to right. */
  method ReadNumber(fmt: CString, i: nat) returns (n: nat, j: nat)
    requires i <= |fmt|
    ensures j == NumberEnd(fmt, i) && n == Number(fmt, i)
  {
    n, j := 0, i;
    assert fmt[i..i] == [];
    while j < |fmt| && '0' <= fmt[j] <= '9'
      invariant i <= j <= |fmt| && n == NumBase(fmt[i..j], 10)
      invariant forall k :: i <= k < j ==> DigitValue(fmt[k]) < 10
    {
      RunExtend(fmt, i, j, 10);
      n := 10 * n + (fmt[j] as int - '0' as int);
      j := j + 1;
    }
    RunEndIs(fmt, i, j, 10);
  }

  /** One case of the flag switch, for the character at position i: those that both formatters have. */
  method ReadCommon(fmt: CString, i: nat, args: seq<Arg>, a: nat, d: Spec) returns (s: Step)
    requires i < |fmt|
    ensures s == CommonStep(fmt, i, args, a, d)
  {
    var ch := fmt[i];
    match ch {
      case ' ' => s := More(i + 1, a, if d.sign == '\0' then d.(sign := ' ') else d);
      case '#' => s := More(i + 1, a, d.(alt := true));
      case '*' =>
        var w := IntArg(args, a);
        if w >= 0 {
          s := More(i + 1, a + 1, d.(width := w));
        } else {
          s := More(i + 1, a + 1, d.(width := -w, ladjust := true));
        }
      case '-' => s := More(i + 1, a, d.(ladjust := true));
      case '+' => s := More(i + 1, a, d.(sign := '+'));
      case '.' =>
        if CharAt(fmt, i + 1) == '*' {
          var n := IntArg(args, a);
          s := More(i + 2, a + 1, d.(prec := if n < 0 then -1 else n));
        } else {
          var n, j := ReadNumber(fmt, i + 1);
          s := More(j, a, d.(prec := n));
        }
      case '0' => s := More(i + 1, a, d.(zeropad := true));
      case 'h' => s := More(i + 1, a, d.(short := true));
      case _ =>
        if '1' <= ch <= '9' {
          var n, j := ReadNumber(fmt, i);
          s := More(j, a, d.(width := n));
        } else {
          s := Conversion;
        }
    }
  }

  /** The flag switch of `_vfprintf_r`. */
  method ReadStep(fmt: CString, i: nat, args: seq<Arg>, a: nat, d: Spec) returns (s: Step)
    requires i < |fmt|
    ensures s == StepV(fmt, i, args, a, d)
  {
    if fmt[i] == 'l' {
      if CharAt(fmt, i + 1) == 'l' {
        s := More(i + 2, a, d.(quad := true));
      } else {
        s := More(i + 1, a, d.(long := true));
      }
    } else if fmt[i] == 'q' {
      s := More(i + 1, a, d.(quad := true));
    } else {
      s := ReadCommon(fmt, i, args, a, d);
    }
  }

  /** Flags, width, precision and size up to the conversion character. */
  method ReadDirective(fmt: CString, i0: nat, args: seq<Arg>, a0: nat) returns (r: Scan)
    requires i0 <= |fmt|
    ensures r == ScanV(fmt, i0, args, a0, PLAIN)
  {
    hide StepV;
    var i, a, d := i0, a0, PLAIN;
    while i < |fmt|
      invariant i <= |fmt| && ScanV(fmt, i, args, a, d) == ScanV(fmt, i0, args, a0, PLAIN)
      decreases |fmt| - i
    {
      var s := ReadStep(fmt, i, args, a, d);
      if s == Conversion {
        return Scan(fmt[i], d, i + 1, a);
      }
      i, a, d := s.fmt, s.arg, s.d;
    }
    return Scan('\0', d, i, a);
  }

  /** The end of the literal text that starts at i. */
  method SkipLiteral(fmt: CString, i: nat) returns (j: nat)
    requires i <= |fmt|
    ensures j == PercentAt(fmt, i)
  {
    j := i;
    while j < |fmt| && fmt[j] != '%'
      invariant i <= j <= |fmt| && PercentAt(fmt, j) == PercentAt(fmt, i)
    {
      j := j + 1;
    }
  }

  class Printer {
    const fp: Stream
    const iov: array<Fragment>
    const buf: array<char>
    const ox: array<char>
    var sign: char
    var iovcnt: nat
    var resid: nat
    ghost var pend: seq<seq<char>>  // what the queued fragments stood for when queued
    ghost const goal: seq<char>     // everything the stream is to have received in the end

    predicate InRange(f: Fragment)
      reads this
    {
      match f
      case Table(_, n) => n <= PADSIZE
      case InBuf(off, len) => off + len <= buf.Length
      case InOx => ox.Length == 2
      case _ => true
    }

    /** What a fragment's memory holds now. */
    function Bytes(f: Fragment): seq<char>
      requires InRange(f)
      reads this, buf, ox
    {
      match f
      case Constant(s) => s
      case Table(c, n) => Rep(c, n)
      case InBuf(off, len) => buf[off..off + len]
      case InOx => ox[..]
      case InSign => [sign]
    }

    /** Every queued fragment still shows the text it was queued for. */
    ghost predicate Faithful()
      reads this, iov, buf, ox
    {
      && iovcnt <= iov.Length && |pend| == iovcnt
      && forall k :: 0 <= k < iovcnt ==> InRange(iov[k]) && Bytes(iov[k]) == pend[k]
    }

    /** Nothing queued depends on memory a conversion overwrites. */
    ghost predicate Clean()
      reads this, iov
    {
      iovcnt <= iov.Length && forall k :: 0 <= k < iovcnt ==> iov[k].Constant? || iov[k].Table?
    }

    /** Output so far: what the stream has and what is queued. */
    ghost function Total(): seq<char>
      reads this, fp
    {
      fp.log + Concat(pend)
    }

    ghost predicate Roomy()
      reads this, fp, fp.base
    {
      fp.StringMode() ==> Min(fp.size, |goal|) <= fp.base.Length
    }

    /** The queue may be full. */
    ghost predicate Queued()
      reads this, iov, buf, ox, fp, fp.base
    {
      && iov.Length == NIOV && buf.Length == BUF && ox.Length == 2
      && buf != ox && fp.base != buf && fp.base != ox
      && fp.Valid() && Roomy()
      && Faithful() && resid == |Concat(pend)|
      && Total() <= goal
    }

    /** There is room for one fragment more. */
    ghost predicate Valid()
      reads this, iov, buf, ox, fp, fp.base
    {
      Queued() && iovcnt < NIOV
    }

    constructor (fp: Stream, ghost goal: seq<char>)
      requires fp.Valid() && fp.log <= goal
      requires fp.StringMode() ==> Min(fp.size, |goal|) <= fp.base.Length
      ensures Valid() && this.fp == fp && this.goal == goal && pend == []
      ensures fresh(iov) && fresh(buf) && fresh(ox)
    {
      this.fp := fp;
      iov := new Fragment[NIOV](_ => InSign);
      buf := new char[BUF](_ => '\0');
      ox := new char[2](_ => '\0');
      sign, iovcnt, resid := '\0', 0, 0;
      pend := [];
      this.goal := goal;
      new;
      assert Concat(pend) == [];
    }

    /** The queue as plain vectors. */
    method Gather() returns (v: seq<seq<char>>)
      requires Faithful()
      ensures v == pend
    {
      v := [];
      var k := 0;
      while k < iovcnt
        invariant 0 <= k <= iovcnt && v == pend[..k]
      {
        v := v + [Bytes(iov[k])];
        k := k + 1;
      }
    }

    /** The queue goes to the stream, which keeps its mode. */
    method Deliver(v: seq<seq<char>>) returns (r: int)
      requires Queued() && v == pend
      modifies fp, fp.base
      ensures fp.Valid() && Roomy()
      ensures fp.base == old(fp.base) && fp.size == old(fp.size)
      ensures fp.StringMode() <==> old(fp.StringMode())
      ensures r == 0 ==> fp.flags == old(fp.flags) && fp.log == old(fp.log) + Concat(v)
      ensures r != 0 ==> SERR in fp.flags && !fp.StringMode() && fp.log <= old(fp.log) + Concat(v)
    {
      r := fp.Sfvwrite(v, resid);
    }

    /** `__sprint`: writes the queue and empties it; true on a write error. */
    method Sprint() returns (err: bool)
      requires Queued()
      modifies this`iovcnt, this`resid, this`pend, fp, fp.base
      ensures Valid() && iovcnt == 0
      ensures fp.base == old(fp.base) && fp.size == old(fp.size)
      ensures fp.StringMode() <==> old(fp.StringMode())
      ensures !err ==> Total() == old(Total()) && fp.flags == old(fp.flags) && fp.log == Total()
      ensures err ==> SERR in fp.flags && !fp.StringMode()
    {
      if resid == 0 {
        iovcnt := 0;
        pend := [];
        return false;
      }
      assert Concat([]) == [];
      hide Stream.Valid, Stream.StringMode, Roomy, Concat, Bytes, InRange;
      var v := Gather();
      var r := Deliver(v);
      resid := 0;
      iovcnt := 0;
      pend := [];
      return r != 0;
    }

    method Enqueue(f: Fragment)
      requires Valid() && InRange(f) && Total() + Bytes(f) <= goal
      modifies this`iovcnt, this`resid, this`pend, iov
      ensures Queued() && iovcnt == old(iovcnt) + 1
      ensures Total() == old(Total()) + Bytes(f)
      ensures old(Clean()) && (f.Constant? || f.Table?) ==> Clean()
    {
      hide Stream.Valid, Stream.StringMode, Concat, Rep;
      ConcatAppend(pend, Bytes(f));
      iov[iovcnt] := f;
      resid := resid + |Bytes(f)|;
      pend := pend + [Bytes(f)];
      iovcnt := iovcnt + 1;
    }

    /** PRINT: queues a fragment, flushing when the vector is full. */
    method Print(f: Fragment) returns (err: bool)
      requires Valid() && InRange(f) && Total() + Bytes(f) <= goal
      modifies this`iovcnt, this`resid, this`pend, iov, fp, fp.base
      ensures Valid()
      ensures fp.base == old(fp.base) && fp.size == old(fp.size)
      ensures fp.StringMode() <==> old(fp.StringMode())
      ensures !err ==> Total() == old(Total() + Bytes(f)) && fp.flags == old(fp.flags)
      ensures old(Clean()) && (f.Constant? || f.Table?) ==> Clean()
      ensures err ==> SERR in fp.flags && !fp.StringMode()
    {
      hide Stream.Valid, Stream.StringMode, Concat, Rep;
      Enqueue(f);
      err := false;
      if iovcnt >= NIOV {
        err := Sprint();
      }
    }

    /** PAD: howmany copies of c, in chunks of the table. */
    method Pad(howmany: int, c: char) returns (err: bool)
      requires Valid() && Total() + Rep(c, howmany) <= goal
      modifies this`iovcnt, this`resid, this`pend, iov, fp, fp.base
      ensures Valid()
      ensures fp.base == old(fp.base) && fp.size == old(fp.size)
      ensures fp.StringMode() <==> old(fp.StringMode())
      ensures !err ==> Total() == old(Total()) + Rep(c, howmany) && fp.flags == old(fp.flags)
      ensures old(Clean()) ==> Clean()
      ensures err ==> SERR in fp.flags && !fp.StringMode()
    {
      hide Valid, Stream.StringMode, Rep, Clean;
      var n := howmany;
      err := false;
      RepParts(c, howmany);
      if n > 0 {
        ghost var start := Total();
        while n > PADSIZE
          invariant Valid() && 0 < n <= howmany
          invariant fp.base == old(fp.base) && fp.size == old(fp.size) && fp.flags == old(fp.flags)
          invariant fp.StringMode() <==> old(fp.StringMode())
          invariant Total() + Rep(c, n) == start + Rep(c, howmany)
          invariant old(Clean()) ==> Clean()
        {
          RepSplit(Total(), c, n, PADSIZE, goal);
          err := Print(Table(c, PADSIZE));
          if err {
            return;
          }
          n := n - PADSIZE;
        }
        err := Print(Table(c, n));
      }
    }

    static lemma RepParts(c: char, n: int)
      ensures n <= 0 ==> Rep(c, n) == []
    {
    }

    static lemma RepSplit(t: seq<char>, c: char, n: nat, m: nat, goal: seq<char>)
      requires m <= n && t + Rep(c, n) <= goal
      ensures t + Rep(c, n) == (t + Rep(c, m)) + Rep(c, n - m)
      ensures t + Rep(c, m) <= goal
    {
    }

    method PadIf(cond: bool, howmany: int, c: char) returns (err: bool)
      requires Valid() && Total() + (if cond then Rep(c, howmany) else []) <= goal
      modifies this`iovcnt, this`resid, this`pend, iov, fp, fp.base
      ensures Valid()
      ensures fp.base == old(fp.base) && fp.size == old(fp.size)
      ensures fp.StringMode() <==> old(fp.StringMode())
      ensures !err ==> Total() == old(Total()) + (if cond then Rep(c, howmany) else []) && fp.flags == old(fp.flags)
      ensures old(Clean()) ==> Clean()
      ensures err ==> SERR in fp.flags && !fp.StringMode()
    {
      err := false;
      if cond {
        err := Pad(howmany, c);
      }
    }

    /** The sign, or 0x with the letter of the conversion. */
    method PutPrefix(hexprefix: bool, ch: char, ghost prefix: seq<char>) returns (err: bool)
      requires Valid() && Clean() && Total() + prefix <= goal
      requires prefix == if sign != '\0' then [sign] else if hexprefix then ['0', ch] else []
      modifies this`iovcnt, this`resid, this`pend, iov, fp, fp.base, ox
      ensures Valid()
      ensures fp.base == old(fp.base) && fp.size == old(fp.size)
      ensures fp.StringMode() <==> old(fp.StringMode())
      ensures !err ==> Total() == old(Total()) + prefix && fp.flags == old(fp.flags)
      ensures err ==> SERR in fp.flags && !fp.StringMode()
    {
      hide Stream.Valid, Stream.StringMode, Concat, Rep;
      err := false;
      if sign != '\0' {
        err := Print(InSign);
      } else if hexprefix {
        ox[0] := '0';
        ox[1] := ch;
        assert ox[..] == prefix;
        err := Print(InOx);
      }
    }

    static lemma Prefixes(t: seq<char>, a: seq<char>, b: seq<char>, c: seq<char>, goal: seq<char>)
      requires t + (a + b + c) <= goal
      ensures t + a <= goal && t + a + b <= goal && t + a + b + c <= goal
      ensures t + a + b + c == t + (a + b + c)
    {
    }

    /** Right-adjusting blanks, prefix, right-adjusting zeroes. */
    method PutLeft(hexprefix: bool, ch: char, d: Spec, zeropad: bool, pad: int,
                   ghost prefix: seq<char>, ghost all: seq<char>)
      returns (err: bool)
      requires Valid() && Clean()
      requires prefix == if sign != '\0' then [sign] else if hexprefix then ['0', ch] else []
      requires all == (if !d.ladjust && !zeropad then Rep(' ', pad) else []) + prefix
                    + (if !d.ladjust && zeropad then Rep('0', pad) else [])
      requires Total() + all <= goal
      modifies this`iovcnt, this`resid, this`pend, iov, fp, fp.base, ox
      ensures Valid()
      ensures fp.base == old(fp.base) && fp.size == old(fp.size) && buf[..] == old(buf[..])
      ensures fp.StringMode() <==> old(fp.StringMode())
      ensures !err ==> Total() == old(Total()) + all && fp.flags == old(fp.flags)
      ensures err ==> SERR in fp.flags && !fp.StringMode()
    {
      assert buf != ox && fp.base != buf && fp.base != ox;
      hide Valid, Stream.StringMode, Rep, Clean, Total;
      Prefixes(Total(), if !d.ladjust && !zeropad then Rep(' ', pad) else [], prefix,
               if !d.ladjust && zeropad then Rep('0', pad) else [], goal);
      err := PadIf(!d.ladjust && !zeropad, pad, ' ');
      if err { return; }
      err := PutPrefix(hexprefix, ch, prefix);
      if err { return; }
      err := PadIf(!d.ladjust && zeropad, pad, '0');
    }

    /** Precision zeroes, the string or number proper, left-adjusting blanks. */
    method PutRight(cp: Fragment, zeroes: int, ladjust: bool, pad: int, ghost body: seq<char>, ghost all: seq<char>)
      returns (err: bool)
      requires Valid() && InRange(cp) && !cp.InOx? && !cp.InSign? && Bytes(cp) == body
      requires all == Rep('0', zeroes) + body + (if ladjust then Rep(' ', pad) else [])
      requires Total() + all <= goal
      modifies this`iovcnt, this`resid, this`pend, iov, fp, fp.base
      ensures Valid()
      ensures fp.base == old(fp.base) && fp.size == old(fp.size)
      ensures fp.StringMode() <==> old(fp.StringMode())
      ensures !err ==> Total() == old(Total()) + all && fp.flags == old(fp.flags)
      ensures err ==> SERR in fp.flags && !fp.StringMode()
    {
      assert fp.base != buf;
      ghost var bytes := buf[..];
      hide Valid, Stream.StringMode, Rep, Total;
      Prefixes(Total(), Rep('0', zeroes), body, if ladjust then Rep(' ', pad) else [], goal);
      err := Pad(zeroes, '0');
      if err { return; }
      assert buf[..] == bytes;
      err := Print(cp);
      if err { return; }
      err := PadIf(ladjust, pad, ' ');
    }

    static lemma TwoHalves(t: seq<char>, x: Item, d: Spec, left: seq<char>, right: seq<char>, goal: seq<char>)
      requires t + LayoutV(x, d) <= goal
      requires var pad := d.width - RealSizeV(x);
               && left == (if !d.ladjust && !x.zeropad then Rep(' ', pad) else []) + x.prefix
                        + (if !d.ladjust && x.zeropad then Rep('0', pad) else [])
               && right == Rep('0', x.dprec - |x.body|) + x.body + (if d.ladjust then Rep(' ', pad) else [])
      ensures LayoutV(x, d) == left + right
      ensures t + left <= goal && t + left + right <= goal && t + left + right == t + LayoutV(x, d)
    {
      var pad := d.width - RealSizeV(x);
      Regroup(if !d.ladjust && !x.zeropad then Rep(' ', pad) else [], x.prefix,
              if !d.ladjust && x.zeropad then Rep('0', pad) else [],
              Rep('0', x.dprec - |x.body|), x.body, if d.ladjust then Rep(' ', pad) else []);
      assert LayoutV(x, d) == left + right;
      hide LayoutV, Rep;
    }

    static lemma Regroup(a: seq<char>, b: seq<char>, c: seq<char>, d: seq<char>, e: seq<char>, f: seq<char>)
      ensures a + b + c + d + e + f == (a + b + c) + (d + e + f)
    {
    }

    /** Padding, prefix, zeroes, body and padding of one converted item. */
    method PutField(cp: Fragment, size: nat, dprec: int, hexprefix: bool, ch: char, d: Spec, zeropad: bool,
                    ghost x: Item)
      returns (err: bool, realsz: nat)
      requires Valid() && Clean() && InRange(cp) && !cp.InOx? && !cp.InSign?
      requires Bytes(cp) == x.body && size == |x.body| && dprec == x.dprec && zeropad == x.zeropad
      requires x.prefix == if sign != '\0' then [sign] else if hexprefix then ['0', ch] else []
      requires Total() + LayoutV(x, d) <= goal
      modifies this`iovcnt, this`resid, this`pend, iov, fp, fp.base, ox
      ensures Valid()
      ensures fp.base == old(fp.base) && fp.size == old(fp.size)
      ensures fp.StringMode() <==> old(fp.StringMode())
      ensures !err ==> Total() == old(Total()) + LayoutV(x, d) && fp.flags == old(fp.flags)
      ensures err ==> SERR in fp.flags && !fp.StringMode()
      ensures realsz == RealSizeV(x)
    {
      realsz := if dprec > size then dprec else size;
      if sign != '\0' {
        realsz := realsz + 1;
      } else if hexprefix {
        realsz := realsz + 2;
      }
      hide Valid, Stream.StringMode, Rep, Clean, Total, LayoutV;
      var pad := d.width - realsz;
      ghost var left := (if !d.ladjust && !zeropad then Rep(' ', pad) else []) + x.prefix
                      + (if !d.ladjust && zeropad then Rep('0', pad) else []);
      ghost var right := Rep('0', dprec - size) + x.body + (if d.ladjust then Rep(' ', pad) else []);
      TwoHalves(Total(), x, d, left, right, goal);
      err := PutLeft(hexprefix, ch, d, zeropad, pad, x.prefix, left);
      if err { return; }
      err := PutRight(cp, dprec - size, d.ladjust, pad, x.body, right);
    }

    /** Memory a conversion overwrites is free for it while the queue is clean. */
    method SetSign(newSign: char)
      requires Valid() && Clean()
      modifies this`sign
      ensures Valid() && Clean() && Total() == old(Total()) && sign == newSign
    {
      hide Stream.Valid, Stream.StringMode, Concat, Rep;
      sign := newSign;
    }

    method PutChar(c: char, newSign: char)
      requires Valid() && Clean()
      modifies this`sign, buf
      ensures Valid() && Clean() && Total() == old(Total()) && fp.flags == old(fp.flags)
      ensures sign == newSign && buf[0] == c
    {
      hide Stream.Valid, Stream.StringMode, Concat, Rep;
      sign := newSign;
      buf[0] := c;
    }

    method PutNumber(u: nat, ch: char, d: Spec, newSign: char) returns (cp: nat)
      requires Valid() && Clean() && u < 0x1_0000_0000_0000_0000
      modifies this`sign, buf
      ensures Valid() && Clean() && Total() == old(Total()) && fp.flags == old(fp.flags)
      ensures sign == newSign && cp <= BUF && buf[cp..BUF] == Body(u, ch, d)
    {
      hide Stream.Valid, Stream.StringMode, Concat, Rep, Body;
      sign := newSign;
      cp := FillNumber(buf, u, ch, d);
      assert buf[cp..BUF] == buf[cp..];
    }

    /** The conversion switch: the string or number proper, with the variables that frame it. */
    method Convert(r: Scan, args: seq<Arg>)
      returns (cp: Fragment, size: nat, dprec: int, zeropad: bool, hexprefix: bool, ch: char)
      requires Valid() && Clean() && r.ch != 'n'
      modifies this`sign, buf
      ensures Valid() && Clean() && Total() == old(Total()) && fp.flags == old(fp.flags)
      ensures InRange(cp) && !cp.InOx? && !cp.InSign?
      ensures var x := ItemV(r, args);
              && Bytes(cp) == x.body && size == |x.body| && dprec == x.dprec && zeropad == x.zeropad
              && x.prefix == if sign != '\0' then [sign] else if hexprefix then ['0', ch] else []
    {
      assert buf.Length == BUF;
      hide Valid, Clean, Rep, Body, Signed, Unsigned, Concat, Total;
      var v := NumArg(args, r.arg);
      dprec, zeropad, hexprefix, ch := 0, r.d.zeropad, false, r.ch;
      if r.ch == 's' {
        var s := TextArg(args, r.arg);
        size := if 0 <= r.d.prec < |s| then r.d.prec else |s|;
        SetSign('\0');
        return Constant(s[..size]), size, dprec, zeropad, hexprefix, ch;
      }
      if !IsSigned(r.ch) && !IsUnsigned(r.ch) && r.ch != 'p' {
        PutChar(if r.ch == 'c' then (v % 256) as char else r.ch, '\0');
        assert buf[0..1] == [buf[0]];
        return InBuf(0, 1), 1, dprec, zeropad, hexprefix, ch;
      }
      var u, newSign := Argument(r, args);
      if r.ch == 'p' {
        hexprefix, ch := true, 'x';
      } else if (r.ch == 'x' || r.ch == 'X') && r.d.alt && u != 0 {
        hexprefix := true;
      }
      dprec := r.d.prec;
      if dprec >= 0 {
        zeropad := false;
      }
      var at := PutNumber(u, r.ch, r.d, newSign);
      cp, size := InBuf(at, BUF - at), BUF - at;
    }

    /** SARG and UARG: the magnitude, and the sign character that goes with it. */
    method Argument(r: Scan, args: seq<Arg>) returns (u: nat, newSign: char)
      requires IsSigned(r.ch) || IsUnsigned(r.ch) || r.ch == 'p'
      ensures u < 0x1_0000_0000_0000_0000
      ensures var x := ItemV(r, args);
              && x == NumberItem(u, r.ch, r.d, x.prefix)
              && (newSign != '\0' ==> x.prefix == [newSign])
              && (newSign == '\0' ==> x.prefix == if r.ch == 'p' then "0x" else HexPrefix(u, r.ch, r.d))
    {
      hide Body;
      var v := NumArg(args, r.arg);
      if IsSigned(r.ch) {
        var n := Signed(v, BitsV(r.ch, r.d));
        if n < 0 {
          return -n, '-';
        }
        return n, r.d.sign;
      } else if r.ch == 'p' {
        return Unsigned(v, 32), '\0';
      } else {
        return Unsigned(v, BitsV(r.ch, r.d)), '\0';
      }
    }

    /** FLUSH: true on a write error. */
    method Flush() returns (err: bool)
      requires Valid()
      modifies this`iovcnt, this`resid, this`pend, fp, fp.base
      ensures Valid() && iovcnt == 0
      ensures fp.base == old(fp.base) && fp.size == old(fp.size)
      ensures fp.StringMode() <==> old(fp.StringMode())
      ensures !err ==> Total() == old(Total()) == fp.log && fp.flags == old(fp.flags)
      ensures err ==> SERR in fp.flags && !fp.StringMode()
    {
      err := false;
      if resid != 0 {
        err := Sprint();
        if err { return; }
      }
      iovcnt := 0;
      pend := [];
      assert Concat(pend) == [];
    }

    /** A whole directive after its flags have been read. */
    method Directive(r: Scan, args: seq<Arg>) returns (err: bool, added: nat)
      requires Valid() && Clean() && r.ch != 'n' && Total() + FieldV(r, args) <= goal
      modifies this`sign, buf, this`iovcnt, this`resid, this`pend, iov, fp, fp.base, ox
      ensures Valid() && (!err ==> Clean())
      ensures fp.base == old(fp.base) && fp.size == old(fp.size)
      ensures fp.StringMode() <==> old(fp.StringMode())
      ensures !err ==> Total() == old(Total()) + FieldV(r, args) && fp.flags == old(fp.flags)
      ensures !err ==> added == |FieldV(r, args)|
      ensures err ==> SERR in fp.flags && !fp.StringMode()
    {
      assert fp.base != buf;
      hide Valid, Stream.StringMode, Rep, Total, LayoutV, ItemV;
      var cp, size, dprec, zeropad, hexprefix, ch := Convert(r, args);
      var realsz;
      err, realsz := PutField(cp, size, dprec, hexprefix, ch, r.d, zeropad, ItemV(r, args));
      added := if r.d.width > realsz then r.d.width else realsz;
      if err { return; }
      err := Flush();
    }
  }

  /** Output from position i on. */
  function RestV(fmt: CString, i: nat, args: seq<Arg>, a: nat): seq<char>
    requires i <= |fmt|
  {
    Flatten(PiecesV(fmt, i, args, a))
  }

  lemma RestParts(fmt: CString, i: nat, args: seq<Arg>, a: nat)
    requires i <= |fmt|
    ensures var j := PercentAt(fmt, i);
            RestV(fmt, i, args, a) == fmt[i..j] +
              if j == |fmt| then []
              else
                var r := ScanV(fmt, j + 1, args, a, PLAIN);
                if r.ch == '\0' then [] else FieldV(r, args) + RestV(fmt, r.fmt, args, NextArg(r))
  {
    hide FieldV, ScanV;
    var j := PercentAt(fmt, i);
    var lit := Literal(fmt[i..j]);
    FlattenCons(lit, []);
    if j < |fmt| {
      var r := ScanV(fmt, j + 1, args, a, PLAIN);
      if r.ch != '\0' {
        var f, ps := Field(FieldV(r, args)), PiecesV(fmt, r.fmt, args, NextArg(r));
        FlattenCons(f, ps);
        FlattenCons(lit, [f] + ps);
      }
    }
  }

  lemma FlattenCons(p: Piece, ps: seq<Piece>)
    ensures Flatten([p] + ps) == p.text + Flatten(ps)
  {
    assert ([p] + ps)[1..] == ps;
  }

  lemma Onward(total: seq<char>, lit: seq<char>, field: seq<char>, rest: seq<char>, goal: seq<char>)
    requires total + (lit + (field + rest)) == goal
    ensures total + lit <= goal && total + lit + field <= goal && (total + lit + field) + rest == goal
  {
  }

  /** Formats onto the stream; without a write error the count is the number of characters written. */
  method Vfprintf(fp: Stream, fmt: CString, args: seq<Arg>) returns (ret: nat, stores: seq<Store>)
    requires fp.Valid() && SERR !in fp.flags
    requires fp.StringMode() ==> Min(fp.size, |fp.log + RenderV(fmt, args)|) <= fp.base.Length
    modifies fp, fp.base
    ensures fp.Valid() && fp.base == old(fp.base) && fp.size == old(fp.size)
    ensures fp.StringMode() <==> old(fp.StringMode())
    ensures SERR !in fp.flags ==> fp.log == old(fp.log) + RenderV(fmt, args) && ret == |RenderV(fmt, args)|
    ensures SERR in fp.flags ==> fp.log <= old(fp.log) + RenderV(fmt, args) && !fp.StringMode()
    ensures ret <= |RenderV(fmt, args)|
    ensures if SERR in fp.flags then stores <= StoresV(fmt, 0, args, 0, 0) else stores == StoresV(fmt, 0, args, 0, 0)
  {
    ghost var goal := fp.log + RestV(fmt, 0, args, 0);
    assert RestV(fmt, 0, args, 0) == RenderV(fmt, args);
    var p := new Printer(fp, goal);
    assert p.Total() == fp.log + [] == fp.log;
    ret, stores := Run(p, fmt, args);
  }

  lemma NoField(r: Scan, args: seq<Arg>)
    ensures r.ch == 'n' ==> FieldV(r, args) == []
  {
  }

  /** The text before a directive, or before the end. */
  method PutText(p: Printer, text: seq<char>) returns (err: bool)
    requires p.Valid() && p.Clean() && p.Total() + text <= p.goal
    modifies p`iovcnt, p`resid, p`pend, p.iov, p.fp, p.fp.base
    ensures p.Valid()
    ensures p.fp.base == old(p.fp.base) && p.fp.size == old(p.fp.size)
    ensures p.fp.StringMode() <==> old(p.fp.StringMode())
    ensures !err ==> p.Clean() && p.Total() == old(p.Total()) + text && p.fp.flags == old(p.fp.flags)
    ensures err ==> SERR in p.fp.flags && !p.fp.StringMode()
  {
    hide Printer.Valid, Printer.Clean, Stream.StringMode, Printer.Total;
    err := false;
    if |text| > 0 {
      err := p.Print(Constant(text));
    }
  }

  /** What an n directive stores for the characters counted so far. */
  method StoreCount(r: Scan, count: nat) returns (stores: seq<Store>)
    requires r.ch == 'n'
    ensures stores == StoreOf(r, count)
  {
    if r.d.quad {
      stores := [Store(r.arg, 64, Signed(count, 64))];
    } else if r.d.long {
      stores := [Store(r.arg, 32, Signed(count, 32))];
    } else if r.d.short {
      stores := [Store(r.arg, 16, Signed(count, 16))];
    } else {
      stores := [Store(r.arg, 32, Signed(count, 32))];
    }
  }

  lemma StoresParts(fmt: CString, i: nat, args: seq<Arg>, a: nat, count: nat)
    requires i <= |fmt|
    ensures var j := PercentAt(fmt, i);
            StoresV(fmt, i, args, a, count) ==
            if j == |fmt| then []
            else
              var r := ScanV(fmt, j + 1, args, a, PLAIN);
              if r.ch == '\0' then []
              else
                StoreOf(r, count + (j - i))
                + StoresV(fmt, r.fmt, args, NextArg(r), count + (j - i) + |FieldV(r, args)|)
  {
    hide ScanV, FieldV, StoreOf, NextArg, PercentAt;
  }

  /** One turn of the scanning loop: literal text, then a directive unless the format ends. */
  method Turn(p: Printer, fmt: CString, i: nat, args: seq<Arg>, a: nat, count: nat)
    returns (err: bool, more: bool, added: nat, i': nat, a': nat, stores: seq<Store>)
    requires i <= |fmt| && p.Valid() && p.Clean()
    requires p.Total() + RestV(fmt, i, args, a) == p.goal
    modifies p, p.iov, p.buf, p.ox, p.fp, p.fp.base
    ensures p.Valid()
    ensures p.fp.base == old(p.fp.base) && p.fp.size == old(p.fp.size)
    ensures p.fp.StringMode() <==> old(p.fp.StringMode())
    ensures err ==> SERR in p.fp.flags && !p.fp.StringMode()
    ensures !err ==> p.Clean() && p.fp.flags == old(p.fp.flags) && |p.Total()| == |old(p.Total())| + added
    ensures i' <= |fmt|
    ensures !err && !more ==> p.Total() == p.goal
    ensures !err && more ==> i < i' && p.Total() + RestV(fmt, i', args, a') == p.goal
    ensures err ==> stores == []
    ensures !err ==> StoresV(fmt, i, args, a, count) ==
                     stores + if more then StoresV(fmt, i', args, a', count + added) else []
  {
    hide Printer.Valid, Printer.Clean, Stream.StringMode, RestV, ScanV, FieldV, Printer.Total, StoreOf, StoresV;
    RestParts(fmt, i, args, a);
    StoresParts(fmt, i, args, a, count);
    i', a', more, stores := i, a, false, [];
    var j := SkipLiteral(fmt, i);
    ghost var t, lit := p.Total(), fmt[i..j];
    added := j - i;
    err := PutText(p, fmt[i..j]);
    if err || j == |fmt| {
      return;
    }
    var r := ReadDirective(fmt, j + 1, args, a);
    if r.ch == '\0' {
      return;
    }
    NoField(r, args);
    Onward(t, lit, FieldV(r, args), RestV(fmt, r.fmt, args, NextArg(r)), p.goal);
    if r.ch == 'n' {
      stores := StoreCount(r, count + added);
    } else {
      var size;
      NoStore(r, count + added);
      err, size := p.Directive(r, args);
      added := added + size;
    }
    i', a', more := r.fmt, NextArg(r), true;
  }

  lemma NoStore(r: Scan, count: nat)
    requires r.ch != 'n'
    ensures StoreOf(r, count) == []
  {
  }

  /** The scanning loop. */
  method Run(p: Printer, fmt: CString, args: seq<Arg>) returns (ret: nat, stores: seq<Store>)
    requires p.Valid() && p.Clean() && SERR !in p.fp.flags
    requires p.Total() + RestV(fmt, 0, args, 0) == p.goal
    modifies p, p.iov, p.buf, p.ox, p.fp, p.fp.base
    ensures p.Valid()
    ensures p.fp.base == old(p.fp.base) && p.fp.size == old(p.fp.size)
    ensures p.fp.StringMode() <==> old(p.fp.StringMode())
    ensures SERR !in p.fp.flags ==> p.fp.log == p.goal && ret == |p.goal| - |old(p.Total())|
    ensures SERR in p.fp.flags ==> !p.fp.StringMode()
    ensures ret <= |p.goal| - |old(p.Total())|
    ensures stores <= StoresV(fmt, 0, args, 0, 0)
    ensures SERR !in p.fp.flags ==> stores == StoresV(fmt, 0, args, 0, 0)
  {
    hide Printer.Valid, Printer.Clean, Stream.StringMode, RestV, Printer.Total, StoresV;
    var i, a, err, more, added := 0, 0, false, true, 0;
    ret, stores := 0, [];
    ghost var base, size, start := p.fp.base, p.fp.size, p.Total();
    while more
      invariant i <= |fmt| && p.Valid() && p.Clean() && SERR !in p.fp.flags
      invariant more ==> p.Total() + RestV(fmt, i, args, a) == p.goal
      invariant !more ==> p.Total() == p.goal
      invariant ret == |p.Total()| - |start|
      invariant stores + (if more then StoresV(fmt, i, args, a, ret) else []) == StoresV(fmt, 0, args, 0, 0)
      invariant p.fp.base == base && p.fp.size == size
      invariant p.fp.StringMode() <==> old(p.fp.StringMode())
      decreases more, |fmt| - i
    {
      var now;
      err, more, added, i, a, now := Turn(p, fmt, i, args, a, ret);
      if err { return; }
      ret, stores := ret + added, stores + now;
    }
    err := p.Flush();
  }
}
