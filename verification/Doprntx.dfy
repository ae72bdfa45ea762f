/** `_doprntx`: the same language straight to a character sink. */
module Doprntx {
  import opened Strtoul
  import opened Format
  import opened Doprnt
  import opened Vfprintf

  const BUFSIZE := 32

  /** Where `putc` sends its characters. */
  class Sink {
    var out: seq<char>

    constructor ()
      ensures out == []
    {
      out := [];
    }

    method Putc(c: char)
      modifies this
      ensures out == old(out) + [c]
    {
      out := out + [c];
    }

    /** The padding loops: c from count n up to the limit. */
    method Fill(c: char, n0: int, limit: int)
      modifies this
      ensures out == old(out) + Rep(c, limit - n0)
    {
      var n := n0;
      ghost var done := 0;
      while n < limit
        invariant done == n - n0 && 0 <= done && (n <= limit || done == 0)
        invariant out == old(out) + Rep(c, done)
      {
        Putc(c);
        n, done := n + 1, done + 1;
        assert Rep(c, done) == Rep(c, done - 1) + [c];
      }
      assert n0 > limit ==> Rep(c, limit - n0) == [];
    }

    method PutAll(s: seq<char>)
      modifies this
      ensures out == old(out) + s
    {
      var i := 0;
      while i < |s|
        invariant 0 <= i <= |s| && out == old(out) + s[..i]
      {
        Putc(s[i]);
        i := i + 1;
      }
    }

    /** Literal text up to a percent sign, counting what is sent. */
    method PutLiteral(fmt: CString, i: nat) returns (j: nat, cnt: nat)
      requires i <= |fmt|
      modifies this
      ensures j == PercentAt(fmt, i)
      ensures out == old(out) + Crlf(fmt[i..j]) && cnt == |Crlf(fmt[i..j])|
    {
      j, cnt := i, 0;
      assert fmt[i..i] == [];
      while j < |fmt| && fmt[j] != '%'
        invariant i <= j <= |fmt| && PercentAt(fmt, j) == PercentAt(fmt, i)
        invariant out == old(out) + Crlf(fmt[i..j]) && cnt == |Crlf(fmt[i..j])|
      {
        assert fmt[i..j + 1][..j - i] == fmt[i..j];
        if fmt[j] != '\n' {
          Putc(fmt[j]);
        } else {
          Putc(CR);
          Putc(LF);
          cnt := cnt + 1;
        }
        cnt, j := cnt + 1, j + 1;
      }
    }

    /** The layout of one item; returns its share of the count. */
    method PutItem(t: seq<char>, prefix: seq<char>, dprec: int, zeropad: bool, d: Spec) returns (added: nat)
      modifies this
      ensures var x := Item(prefix, t, dprec, zeropad);
              out == old(out) + LayoutD(x, d) && added == |LayoutD(x, d)|
    {
      hide Rep;
      var fieldsz := |t| + |prefix|;
      var realsz := if dprec > fieldsz then dprec else fieldsz;
      ghost var start, pad := out, d.width - realsz;
      NoPadding(' ', d.width, realsz);
      if !d.ladjust && !zeropad && d.width != 0 {
        Fill(' ', realsz, d.width);
      }
      ghost var p1 := if !d.ladjust && !zeropad then Rep(' ', pad) else [];
      assert out == start + p1;
      PutAll(prefix);
      if !d.ladjust && zeropad {
        Fill('0', realsz, d.width);
      }
      ghost var p3 := if !d.ladjust && zeropad then Rep('0', pad) else [];
      assert out == start + p1 + prefix + p3;
      Fill('0', fieldsz, dprec);
      PutAll(t);
      if d.ladjust {
        Fill(' ', realsz, d.width);
      }
      ghost var p6 := if d.ladjust then Rep(' ', pad) else [];
      InOrder(start, p1, prefix, p3, Rep('0', dprec - fieldsz), t, p6);
      assert out == start + p1 + prefix + p3 + Rep('0', dprec - fieldsz) + t + p6;
      added := if d.width > realsz then d.width else realsz;
    }
  }

  lemma NoPadding(c: char, width: nat, realsz: nat)
    ensures width == 0 ==> Rep(c, width - realsz) == []
  {
  }

  lemma InOrder(s: seq<char>, a: seq<char>, b: seq<char>, c: seq<char>, d: seq<char>, e: seq<char>, f: seq<char>)
    ensures s + a + b + c + d + e + f == s + (a + b + c + d + e + f)
  {
  }

  /** The flag switch of `_doprntx`. */
  method ReadStep(fmt: CString, i: nat, args: seq<Arg>, a: nat, d: Spec) returns (s: Step)
    requires i < |fmt|
    ensures s == StepD(fmt, i, args, a, d)
  {
    if fmt[i] == 'L' {
      s := More(i + 1, a, d);
    } else if fmt[i] == 'l' {
      s := More(i + 1, a, d.(long := true));
    } else {
      s := ReadCommon(fmt, i, args, a, d);
    }
  }

  method ReadDirective(fmt: CString, i0: nat, args: seq<Arg>, a0: nat) returns (r: Scan)
    requires i0 <= |fmt|
    ensures r == ScanD(fmt, i0, args, a0, PLAIN)
  {
    hide StepD;
    var i, a, d := i0, a0, PLAIN;
    while i < |fmt|
      invariant i <= |fmt| && ScanD(fmt, i, args, a, d) == ScanD(fmt, i0, args, a0, PLAIN)
      decreases |fmt| - i
    {
      var s := ReadStep(fmt, i, args, a, d);
      if s == Conversion {
        return Scan(fmt[i], d, i + 1, a);
      }
      i, a, d := s.fmt, s.arg, s.d;
    }
    return Scan('\0', d, i, a);
  }

  /** The digits of a number, backwards from the end of a fresh buffer. */
  method ConvertDigits(u: nat, ch: char, d: Spec, upper: bool) returns (t: seq<char>)
    requires u < 0x1_0000_0000
    ensures t == BodyD(u, ch, d, upper)
  {
    var buf := new char[BUFSIZE](_ => '\0');
    var at := BUFSIZE;
    if u != 0 || d.prec != 0 {
      at := FillByDigits(buf, u, BaseOf(ch), TableD(ch, upper));
      if d.alt && BaseOf(ch) == 8 && buf[at] != '0' {
        ghost var rest := buf[at..];
        at := at - 1;
        buf[at] := '0';
        assert buf[at..] == "0" + rest;
      }
    }
    t := buf[at..];
  }

  /** The conversion switch: what goes to the layout. */
  method Convert(r: Scan, args: seq<Arg>, upper: bool) returns (x: Item)
    requires IsNumber(r.ch) || r.ch == 'c' || r.ch == 's'
    ensures x == ItemD(r, args, upper)
  {
    hide BodyD, Signed, Digits;
    if r.ch == 'c' {
      return Item([], [(NumArg(args, r.arg) % 256) as char], 0, r.d.zeropad);
    }
    if r.ch == 's' {
      var s := TextArg(args, r.arg);
      var size := if 0 <= r.d.prec < |s| then r.d.prec else |s|;
      return Item([], s[..size], 0, r.d.zeropad);
    }
    var u := ValueD(r, args);
    var prefix := [];
    if IsSigned(r.ch) {
      if u >= 0x8000_0000 {
        u := 0x1_0000_0000 - u;
        prefix := "-";
      } else if r.d.sign != '\0' {
        prefix := [r.d.sign];
      }
    } else if (r.ch == 'x' || r.ch == 'X') && r.d.alt && u != 0 {
      prefix := ['0', r.ch];
    }
    var t := ConvertDigits(u, r.ch, r.d, upper);
    return Item(prefix, t, r.d.prec, r.d.zeropad && r.d.prec < 0);
  }

  /** One turn of the scanning loop: literal text, then a directive unless the format ends. */
  method Turn(sink: Sink, fmt: CString, i: nat, args: seq<Arg>, a: nat, upper: bool, count: nat)
    returns (more: bool, added: nat, i': nat, a': nat, upper': bool, stores: seq<Store>)
    requires i <= |fmt|
    modifies sink
    ensures i' <= |fmt| && (more ==> i < i')
    ensures old(sink.out) + RenderD(fmt, i, args, a, upper) ==
            sink.out + if more then RenderD(fmt, i', args, a', upper') else []
    ensures added == |sink.out| - |old(sink.out)|
    ensures StoresD(fmt, i, args, a, upper, count) ==
            stores + if more then StoresD(fmt, i', args, a', upper', count + added) else []
  {
    hide ScanD, FieldD, UpperAfter, RenderD, PercentAt, Crlf, StoreOf, StoresD, NextArg;
    i', a', upper', more, stores := i, a, upper, false, [];
    ghost var done := sink.out;
    var j;
    j, added := sink.PutLiteral(fmt, i);
    RenderEnd(fmt, i, args, a, upper, j);
    StoresPart(fmt, i, args, a, upper, j, count);
    if j == |fmt| {
      return;
    }
    var r := ReadDirective(fmt, j + 1, args, a);
    if r.ch == '\0' {
      return;
    }
    var size;
    size, stores := PutConversion(sink, r, args, upper, count + added);
    RenderStep(fmt, i, args, a, upper, j, r, done);
    added := added + size;
    i', a', upper', more := r.fmt, NextArg(r), UpperAfter(r, args, upper), true;
  }

  /** Formats to the sink; the count is the number of characters sent. */
  method Doprntx(sink: Sink, fmt: CString, args: seq<Arg>) returns (cnt: nat, stores: seq<Store>)
    modifies sink
    ensures sink.out == old(sink.out) + RenderD(fmt, 0, args, 0, false)
    ensures cnt == |RenderD(fmt, 0, args, 0, false)|
    ensures stores == StoresD(fmt, 0, args, 0, false, 0)
    ensures '%' !in fmt ==> var t := sink.out[|old(sink.out)|..]; LinesReturn(t) && WithoutReturns(t) == fmt
  {
    hide RenderD, StoresD, LinesReturn, WithoutReturns;
    var i, a, upper, more, added := 0, 0, false, true, 0;
    cnt, stores := 0, [];
    while more
      invariant i <= |fmt| && cnt == |sink.out| - |old(sink.out)|
      invariant sink.out + (if more then RenderD(fmt, i, args, a, upper) else []) ==
                old(sink.out) + RenderD(fmt, 0, args, 0, false)
      invariant stores + (if more then StoresD(fmt, i, args, a, upper, cnt) else []) ==
                StoresD(fmt, 0, args, 0, false, 0)
      decreases more, |fmt| - i
    {
      var now;
      more, added, i, a, upper, now := Turn(sink, fmt, i, args, a, upper, cnt);
      cnt, stores := cnt + added, stores + now;
    }
    if '%' !in fmt {
      PlainFormat(fmt, args, false);
    }
  }

  lemma RenderEnd(fmt: CString, i: nat, args: seq<Arg>, a: nat, upper: bool, j: nat)
    requires i <= |fmt| && j == PercentAt(fmt, i)
    ensures j == |fmt| || ScanD(fmt, j + 1, args, a, PLAIN).ch == '\0' ==>
              RenderD(fmt, i, args, a, upper) == Crlf(fmt[i..j])
  {
    hide ScanD, FieldD, UpperAfter, PercentAt, Crlf, NextArg, CommonStep;
  }

  lemma StoresPart(fmt: CString, i: nat, args: seq<Arg>, a: nat, upper: bool, j: nat, count: nat)
    requires i <= |fmt| && j == PercentAt(fmt, i)
    ensures StoresD(fmt, i, args, a, upper, count) ==
            if j == |fmt| then []
            else
              var r := ScanD(fmt, j + 1, args, a, PLAIN);
              if r.ch == '\0' then []
              else
                var now := count + |Crlf(fmt[i..j])|;
                StoreOf(r, now)
                + StoresD(fmt, r.fmt, args, NextArg(r), UpperAfter(r, args, upper), now + |FieldD(r, args, upper)|)
  {
    hide ScanD, FieldD, UpperAfter, PercentAt, Crlf, StoreOf, NextArg, CommonStep;
  }

  lemma RenderStep(fmt: CString, i: nat, args: seq<Arg>, a: nat, upper: bool, j: nat, r: Scan, done: seq<char>)
    requires i <= |fmt| && j == PercentAt(fmt, i) < |fmt|
    requires r == ScanD(fmt, j + 1, args, a, PLAIN) && r.ch != '\0'
    ensures done + RenderD(fmt, i, args, a, upper) ==
            (done + Crlf(fmt[i..j]) + FieldD(r, args, upper))
            + RenderD(fmt, r.fmt, args, NextArg(r), UpperAfter(r, args, upper))
  {
    hide Crlf, ScanD, FieldD, UpperAfter, NextArg, PercentAt;
    Appended(done, Crlf(fmt[i..j]), FieldD(r, args, upper),
             RenderD(fmt, r.fmt, args, NextArg(r), UpperAfter(r, args, upper)));
  }

  lemma Appended(s: seq<char>, a: seq<char>, b: seq<char>, c: seq<char>)
    ensures s + (a + (b + c)) == (s + a + b) + c
  {
  }

  method PutConversion(sink: Sink, r: Scan, args: seq<Arg>, upper: bool, count: nat)
    returns (added: nat, stores: seq<Store>)
    modifies sink
    ensures sink.out == old(sink.out) + FieldD(r, args, upper) && added == |FieldD(r, args, upper)|
    ensures stores == StoreOf(r, count)
  {
    hide ItemD, LayoutD;
    added, stores := 0, [];
    if r.ch == 'n' {
      stores := StoreCount(r, count);
      return;
    }
    if IsNumber(r.ch) || r.ch == 'c' || r.ch == 's' {
      var x := Convert(r, args, upper);
      added := sink.PutItem(x.body, x.prefix, x.dprec, x.zeropad, r.d);
    } else {
      sink.Putc(r.ch);
      added := 1;
    }
  }
}
