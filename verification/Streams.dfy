/** The output streams under `_vfprintf_r`: string, unbuffered and line-buffered. */
module Streams {

  datatype Flag = SWR | SLBF | SNBF | SSTR | SERR

  const EOF: int := -1
  const BUFSIZ: nat := 1024

  function Concat(iov: seq<seq<char>>): seq<char> {
    if |iov| == 0 then [] else iov[0] + Concat(iov[1..])
  }

  function Min(a: int, b: int): int {
    if a < b then a else b
  }

  lemma {:induction false} ConcatAppend(iov: seq<seq<char>>, p: seq<char>)
    ensures Concat(iov + [p]) == Concat(iov) + p
  {
    if |iov| == 0 {
      assert Concat([p]) == p + Concat([p][1..]);
    } else {
      assert (iov + [p])[1..] == iov[1..] + [p];
      ConcatAppend(iov[1..], p);
    }
  }

  /** What follows the last newline. */
  function LastLine(s: seq<char>): seq<char> {
    if |s| == 0 || s[|s| - 1] == '\n' then [] else LastLine(s[..|s| - 1]) + [s[|s| - 1]]
  }

  /** It is a suffix without newline, and the whole text or just behind one. */
  lemma {:induction false} LastLineParts(s: seq<char>) returns (k: nat)
    ensures k <= |s| && LastLine(s) == s[k..] && '\n' !in s[k..] && (k > 0 ==> s[k - 1] == '\n')
  {
    k := |s|;
    while k > 0 && s[k - 1] != '\n'
      invariant k <= |s| && '\n' !in s[k..]
    {
      assert s[k - 1..] == [s[k - 1]] + s[k..];
      k := k - 1;
    }
    LastLineIs(s, k);
  }

  /** Only one suffix begins a line and holds no newline. */
  lemma {:induction false} LastLineIs(s: seq<char>, k: nat)
    requires k <= |s| && '\n' !in s[k..] && (k > 0 ==> s[k - 1] == '\n')
    ensures LastLine(s) == s[k..]
    decreases |s|
  {
    if k < |s| {
      var n := |s| - 1;
      assert s[k..][n - k] == s[n] && s[k..] == s[..n][k..] + [s[n]];
      LastLineIs(s[..n], k);
    }
  }

  /** What stands before a newline does not matter. */
  lemma LastLineBehind(s: seq<char>, t: seq<char>)
    requires '\n' in t
    ensures LastLine(s + t) == LastLine(t)
  {
    var k := LastLineParts(t);
    assert k > 0 by {
      assert t[0..] == t;
    }
    assert (s + t)[|s| + k..] == t[k..];
    LastLineIs(s + t, |s| + k);
  }

  /** Text without a newline is one line. */
  lemma OneLine(s: seq<char>)
    requires '\n' !in s
    ensures LastLine(s) == s
  {
    LastLineIs(s, 0);
  }

  /** Index just past the first newline, or one more than the length when there is none. */
  method LineLength(p: seq<char>) returns (n: nat)
    ensures 0 < n <= |p| + 1
    ensures n <= |p| ==> p[n - 1] == '\n'
    ensures '\n' !in p[..n - 1]
  {
    n := 0;
    while n < |p|
      invariant n <= |p| && '\n' !in p[..n]
    {
      if p[n] == '\n' {
        return n + 1;
      }
      n := n + 1;
    }
    return |p| + 1;
  }

  /** `FILE`: the write function's destination is the field `device`. */
  class Stream {
    var flags: set<Flag>
    var base: array?<char>
    var tail: nat           // pTail - pBase
    var size: nat           // nSize
    var free: int           // nFreeSpace
    var device: seq<char>
    ghost var log: seq<char>  // everything written so far, whether or not it was kept
    ghost const before: seq<char>  // what a string stream's memory held at first

    function Buffered(): seq<char>
      requires base != null && tail <= base.Length
      reads this, base
    {
      base[..tail]
    }

    /** sprintf streams keep the first `size` characters and touch nothing behind them. */
    ghost predicate StringMode()
      reads this, base
    {
      && SSTR in flags && SNBF !in flags && SLBF !in flags
      && base != null && tail == Min(size, |log|) <= base.Length && free == size - tail
      && Buffered() == log[..tail] && device == []
      && base.Length == |before| && base[tail..] == before[tail..]
    }

    ghost predicate UnbufferedMode()
      reads this
    {
      SNBF in flags && SSTR !in flags && tail == 0 && free == 0 && device == log
    }

    /** nFreeSpace counts the buffered bytes downwards; a newline never stays in the buffer. */
    ghost predicate LineMode()
      reads this, base
    {
      && SLBF in flags && SNBF !in flags && SSTR !in flags && SWR in flags
      && base != null && tail <= size <= base.Length && free + tail == 0
      && '\n' !in Buffered() && device + Buffered() == log
    }

    /** The buffered part of the current line. */
    ghost function Line(): (s: seq<char>)
      requires LineMode()
      reads this, base
      ensures '\n' !in s
    {
      Buffered()
    }

    ghost predicate Valid()
      reads this, base
    {
      StringMode() || UnbufferedMode() || LineMode()
    }

    constructor Str(str: array<char>, size: nat)
      ensures StringMode() && log == [] && base == str && this.size == size && SERR !in flags
      ensures before == str[..]
    {
      flags := {SWR, SSTR};
      base, tail := str, 0;
      this.size, free := size, size;
      device, log := [], [];
      before := str[..];
    }

    /** The device's write function: any positive count is a prefix taken, anything else a failure. */
    method FnWrite(p: seq<char>) returns (w: int)
      modifies this`device
      ensures w <= |p|
      ensures device == if w > 0 then old(device) + p[..w] else old(device)
    {
      w := *;
      if w > |p| {
        w := |p|;
      }
      if w > 0 {
        device := device + p[..w];
      }
    }

    /** What the device will have received once the buffer is written out. */
    ghost function Everything(): seq<char>
      requires base != null ==> tail <= base.Length
      reads this, base
    {
      device + (if base == null then [] else Buffered())
    }

    /** One accepted write after another until nothing is left, or a failure. */
    method Drain(bytes: seq<char>) returns (failed: bool)
      modifies this`device
      ensures !failed ==> device == old(device) + bytes
      ensures failed ==> device <= old(device) + bytes
    {
      var rest := bytes;
      while |rest| > 0
        invariant device + rest == old(device) + bytes
        decreases |rest|
      {
        var t := FnWrite(rest);
        if t <= 0 {
          return true;
        }
        Cut(rest, t);
        rest := rest[t..];
      }
      return false;
    }

    /** Empties the buffer of any stream with a device; a failed write drops the rest and marks the stream. */
    method Fflush() returns (r: int)
      requires SSTR !in flags && (base != null ==> tail <= base.Length) && Everything() == log
      modifies this
      ensures base == old(base) && size == old(size) && (r == 0 || r == EOF)
      ensures if SWR !in old(flags) || base == null then
                r == 0 && unchanged(this)
              else
                && tail == 0 && free == (if SLBF in flags || SNBF in flags then 0 else size) && device == log
                && (if r == 0 then flags == old(flags) && log == old(log)
                    else flags == old(flags) + {SERR} && log <= old(log))
    {
      if SWR !in flags || base == null {
        return 0;
      }
      var bytes := Buffered();
      tail := 0;
      free := if SLBF in flags || SNBF in flags then 0 else size;
      var failed := Drain(bytes);
      if failed {
        flags := flags + {SERR};
        log := device;
        return EOF;
      }
      return 0;
    }

    static lemma Cut(s: seq<char>, t: nat)
      requires t <= |s|
      ensures s == s[..t] + s[t..]
    {
    }

    /** A line-buffered stream whose buffer may for the moment end in a newline. */
    ghost predicate LineBuffer()
      reads this, base
    {
      && SLBF in flags && SNBF !in flags && SSTR !in flags && SWR in flags
      && base != null && tail <= size <= base.Length && free + tail == 0
      && device + Buffered() == log
    }

    /** COPY(n), with pTail moved past it. */
    method Copy(p: seq<char>)
      requires base != null && tail + |p| <= base.Length
      modifies this`tail, base
      ensures tail == old(tail) + |p| && Buffered() == old(Buffered()) + p
      ensures forall j :: tail <= j < base.Length ==> base[j] == old(base[j])
      ensures base[tail..] == old(base[tail..])[|p|..]
    {
      forall i | 0 <= i < |p| {
        base[tail + i] := p[i];
      }
      tail := tail + |p|;
      assert base[..tail] == old(base[..tail]) + p;
    }

    /** p goes into the buffer. */
    method Keep(p: seq<char>)
      requires LineMode() && tail + |p| <= size
      modifies this, base
      ensures base == old(base) && size == old(size) && flags == old(flags) && tail == old(tail) + |p|
      ensures LineBuffer() && Buffered() == old(Buffered()) + p && log == old(log) + p && device == old(device)
    {
      Copy(p);
      log := log + p;
      free := free - |p|;
    }

    /** One step of line-buffered output: how many bytes of p went, and whether a write failed. */
    method LineStep(p: seq<char>, s: nat) returns (w: int)
      requires LineMode() && 0 < s <= |p| && '\n' !in p[..s - 1]
      modifies this, base
      ensures base == old(base) && size == old(size)
      ensures w == EOF || 0 <= w <= s
      ensures w >= 0 ==> flags == old(flags) && LineBuffer() && log == old(log) + p[..w]
      ensures w >= 0 && w < s ==> LineMode()
      ensures w >= 0 && '\n' in Buffered() ==> w == s && p[s - 1] == '\n'
      ensures w >= 0 ==> w > 0 || tail < old(tail)
      ensures w == EOF ==> flags == old(flags) + {SERR} && device == log <= old(log) + p && tail == 0 && free == 0
      ensures w >= 0 && old(tail) > 0 && old(tail) + s > size ==> w == size - old(tail) && tail == 0
      ensures w >= 0 && old(tail) == 0 && s >= size ==> 0 < w <= size && tail == 0
      ensures s < size && old(tail) + s <= size ==>
                w == s && device == old(device) && Buffered() == old(Buffered()) + p[..s]
    {
      w := free + size;
      if tail > 0 && s > w {
        Keep(p[..w]);
        var r := Fflush();
        if r != 0 {
          return EOF;
        }
      } else if s >= size {
        w := FnWrite(p[..size]);
        if w <= 0 {
          flags := flags + {SERR};
          return EOF;
        }
        log := log + p[..w];
      } else {
        w := s;
        Keep(p[..w]);
      }
    }

    /** GETIOV: the next vector that is not empty. */
    method NextVector(iov: seq<seq<char>>, i0: nat, p0: seq<char>) returns (i: nat, p: seq<char>, moved: bool)
      requires i0 <= |iov| && |p0 + Concat(iov[i0..])| > 0
      ensures i <= |iov| && |p| > 0 && p + Concat(iov[i..]) == p0 + Concat(iov[i0..])
      ensures !moved ==> p == p0
    {
      i, p, moved := i0, p0, false;
      while |p| == 0
        invariant i <= |iov| && p + Concat(iov[i..]) == p0 + Concat(iov[i0..])
        invariant !moved ==> p == p0
        decreases |iov| - i
      {
        assert iov[i..][1..] == iov[i + 1..];
        p, i, moved := iov[i], i + 1, true;
      }
    }

    /** String output keeps what fits and pretends the rest was written. */
    method WriteString(iov: seq<seq<char>>, resid0: nat)
      requires StringMode() && resid0 == |Concat(iov)| > 0
      requires Min(size, |log| + resid0) <= base.Length
      modifies this, base
      ensures StringMode() && log == old(log) + Concat(iov)
      ensures base == old(base) && size == old(size) && flags == old(flags)
      ensures forall j :: Min(size, |log|) <= j < base.Length ==> base[j] == old(base[j])
    {
      assert base != null;
      hide StringMode;
      var resid, i, p := resid0, 0, [];
      ghost var all := log + Concat(iov);
      while resid != 0
        invariant i <= |iov| && resid == |p + Concat(iov[i..])|
        invariant StringMode() && log + (p + Concat(iov[i..])) == all
        invariant base == old(base) && size == old(size) && flags == old(flags) && base != null
        invariant forall j :: Min(size, |log|) <= j < base.Length ==> base[j] == old(base[j])
        decreases resid
      {
        var moved;
        i, p, moved := NextVector(iov, i, p);
        Take(log, p, Concat(iov[i..]), |p|);
        WritePiece(p);
        assert p[|p|..] == [] && p[..|p|] == p;
        resid := resid - |p|;
        p := [];
      }
    }

    static lemma DropDrop(s: seq<char>, t: nat, w: nat)
      requires t + w <= |s|
      ensures s[t..][w..] == s[t + w..]
    {
    }

    /** What a limit keeps of a text and more. */
    static lemma Kept(log: seq<char>, p: seq<char>, size: nat)
      ensures var t := Min(size, |log|);
              && t + Min(size - t, |p|) == Min(size, |log + p|)
              && log[..t] + p[..Min(size - t, |p|)] == (log + p)[..Min(size, |log + p|)]
    {
    }

    /** Copies what fits of p and counts all of it. */
    method WritePiece(p: seq<char>)
      requires StringMode() && Min(size, |log| + |p|) <= base.Length
      modifies this`tail, this`free, this`log, base
      ensures StringMode() && log == old(log) + p
      ensures forall j :: Min(size, |log|) <= j < base.Length ==> base[j] == old(base[j])
    {
      var w := free;
      if |p| < w {
        w := |p|;
      }
      assert 0 <= w == Min(free, |p|);
      Kept(log, p, size);
      hide Min;
      DropDrop(before, tail, w);
      Copy(p[..w]);
      log := log + p;
      free := free - w;
    }

    /** One write of at most BUFSIZ bytes: how many of p went, or a failure. */
    method WriteChunk(p: seq<char>) returns (w: int)
      requires UnbufferedMode() && |p| > 0
      modifies this
      ensures base == old(base) && size == old(size) && UnbufferedMode()
      ensures w == EOF || (0 < w <= |p| && w <= 1024)
      ensures w > 0 ==> flags == old(flags) && log == old(log) + p[..w]
      ensures w == EOF ==> flags == old(flags) + {SERR} && log == old(log)
    {
      w := FnWrite(p[..Min(|p|, BUFSIZ)]);
      if w <= 0 {
        flags := flags + {SERR};
        return EOF;
      }
      log := log + p[..w];
    }

    /** Unbuffered output, vector by vector. */
    method WriteUnbuffered(iov: seq<seq<char>>, resid0: nat) returns (r: int)
      requires UnbufferedMode() && resid0 == |Concat(iov)| > 0
      modifies this
      ensures base == old(base) && size == old(size) && UnbufferedMode()
      ensures r == 0 || r == EOF
      ensures r == 0 ==> flags == old(flags) && log == old(log) + Concat(iov)
      ensures r == EOF ==> flags == old(flags) + {SERR} && log <= old(log) + Concat(iov)
    {
      hide UnbufferedMode, Min, Concat;
      var resid, i, p := resid0, 0, [];
      ghost var all := log + Concat(iov);
      while resid != 0
        invariant i <= |iov| && resid == |p + Concat(iov[i..])|
        invariant UnbufferedMode() && log + (p + Concat(iov[i..])) == all
        invariant base == old(base) && size == old(size) && flags == old(flags)
        decreases resid
      {
        var moved;
        i, p, moved := NextVector(iov, i, p);
        ghost var was := log;
        var w := WriteChunk(p);
        Take(was, p, Concat(iov[i..]), w);
        if w == EOF {
          return EOF;
        }
        p := p[w..];
        resid := resid - w;
      }
      return 0;
    }

    /** nldist reaches just past the first newline of p, or past the end when there is none. */
    static ghost predicate KnownLine(p: seq<char>, nldist: nat) {
      0 < nldist <= |p| + 1 && '\n' !in p[..nldist - 1] && (nldist <= |p| ==> p[nldist - 1] == '\n')
    }

    /** A piece less to write, and the line it belongs to: x is the buffer with the piece, b what is buffered now. */
    static lemma PieceGone(x: seq<char>, b: seq<char>, rest: seq<char>, ended: bool, size: nat)
      requires ended ==> |x| > 0 && x[|x| - 1] == '\n' && b == []
      requires !ended && '\n' !in rest && |x| + |rest| < size ==> b == x
      requires !ended && '\n' !in rest ==> '\n' !in x
      ensures |LastLine(x + rest)| < size ==> LastLine(b + rest) == LastLine(x + rest)
    {
      hide LastLine;
      if '\n' in rest {
        LastLineBehind(x, rest);
        LastLineBehind(b, rest);
      } else if ended {
        assert (x + rest)[|x|..] == rest && [] + rest == rest;
        LastLineIs(x + rest, |x|);
        OneLine(rest);
      } else {
        OneLine(x + rest);
      }
    }

    /** A step short of the line's end leaves its newline to come, and the same line. */
    static lemma LineLeft(p: seq<char>, more: seq<char>, nldist: nat, w: nat)
      requires KnownLine(p, nldist) && w < nldist && w <= |p|
      ensures if nldist <= |p| then '\n' in p[w..] + more else '\n' !in p
      ensures w == |p| || KnownLine(p[w..], nldist - w)
    {
      if nldist <= |p| {
        assert (p[w..] + more)[nldist - 1 - w] == '\n';
      } else {
        assert p[..nldist - 1] == p;
      }
      assert w < |p| ==> p[w..][..nldist - w - 1] == p[..nldist - 1][w..];
    }

    /** What LineAdvance does to the line. */
    static lemma LineStays(b: seq<char>, b': seq<char>, p: seq<char>, more: seq<char>, nldist: nat, w: nat, size: nat)
      requires KnownLine(p, nldist) && w <= Min(|p|, nldist) && '\n' !in b
      requires w == nldist ==> b' == []
      requires nldist > |p| && |p| < size && |b| + |p| <= size ==> w == |p| && b' == b + p
      ensures |LastLine(b + (p + more))| < size ==> LastLine(b' + (p[w..] + more)) == LastLine(b + (p + more))
    {
      hide LastLine;
      var x, rest := b + p[..w], p[w..] + more;
      assert b + (p + more) == x + rest;
      if w < nldist {
        LineLeft(p, more, nldist, w);
        assert p[..w] + p[w..] == p;
        assert w == |p| ==> p[..w] == p;
      }
      PieceGone(x, b', rest, w == nldist, size);
    }

    /** A step, and the flush that follows a copied newline. */
    method LineAdvance(p: seq<char>, nldist: nat) returns (w: int)
      requires LineMode() && |p| > 0 && KnownLine(p, nldist)
      modifies this, base
      ensures LineMode() && base == old(base) && size == old(size)
      ensures w == EOF || 0 <= w <= Min(|p|, nldist)
      ensures w >= 0 ==> flags == old(flags) && log == old(log) + p[..w]
      ensures w >= 0 ==> w > 0 || tail < old(tail)
      ensures w >= 0 && w < nldist ==> w == |p| || KnownLine(p[w..], nldist - w)
      ensures w == EOF ==> flags == old(flags) + {SERR} && log <= old(log) + p
      ensures w == nldist ==> Line() == []
      ensures nldist > |p| && |p| < size && |old(Line())| + |p| <= size ==>
                w == |p| && device == old(device) && Line() == old(Line()) + p
    {
      w := LineStep(p, Min(|p|, nldist));
      if w == nldist {
        var e := Fflush();
        if e != 0 {
          return EOF;
        }
      }
    }

    /** The same, with the line that is being written: while it is shorter than the buffer, it stays there. */
    method LineTurn(p: seq<char>, nldist: nat, ghost more: seq<char>) returns (w: int)
      requires LineMode() && |p| > 0 && KnownLine(p, nldist)
      modifies this, base
      ensures LineMode() && base == old(base) && size == old(size)
      ensures w == EOF || (0 <= w <= |p| && w <= nldist)
      ensures w >= 0 ==> flags == old(flags) && log == old(log) + p[..w]
      ensures w >= 0 ==> w > 0 || tail < old(tail)
      ensures w >= 0 && w < nldist ==> w == |p| || KnownLine(p[w..], nldist - w)
      ensures w == EOF ==> flags == old(flags) + {SERR} && log <= old(log) + p
      ensures w >= 0 && |LastLine(old(Line()) + (p + more))| < size ==>
                LastLine(Line() + (p[w..] + more)) == LastLine(old(Line()) + (p + more))
      ensures '\n' !in p && |old(Line())| + |p| < size ==>
                w == |p| && device == old(device) && Line() == old(Line()) + p
    {
      assert '\n' !in p ==> nldist > |p|;
      hide KnownLine, LastLine, LineMode;
      w := LineAdvance(p, nldist);
      if w >= 0 {
        LineStays(old(Line()), Line(), p, more, nldist, w, size);
      }
    }

    /** Line-buffered output: a newline empties the buffer, a long stretch without one goes out in pieces. */
    method WriteLines(iov: seq<seq<char>>, resid0: nat) returns (r: int)
      requires LineMode() && resid0 == |Concat(iov)| > 0
      modifies this, base
      ensures base == old(base) && size == old(size) && LineMode()
      ensures r == 0 || r == EOF
      ensures r == 0 ==> flags == old(flags) && log == old(log) + Concat(iov)
      ensures r == EOF ==> flags == old(flags) + {SERR} && log <= old(log) + Concat(iov)
      ensures r == 0 && |LastLine(old(Line()) + Concat(iov))| < size ==> Line() == LastLine(old(Line()) + Concat(iov))
      ensures '\n' !in Concat(iov) && |old(Line())| + |Concat(iov)| < size ==>
                r == 0 && device == old(device) && Line() == old(Line()) + Concat(iov)
    {
      hide LineMode, KnownLine, LastLine, Concat, Min, Line;
      assert [] + Concat(iov[0..]) == Concat(iov);
      ghost var line, quiet := LastLine(Line() + Concat(iov)), '\n' !in Concat(iov) && |Line()| + resid0 < size;
      if quiet {
        OneLine(Line() + Concat(iov));
      }
      var resid, i, p := resid0, 0, [];
      var nlknown: bool, nldist: nat := false, 0;
      ghost var all := log + Concat(iov);
      while resid != 0
        invariant i <= |iov| && resid == |p + Concat(iov[i..])|
        invariant LineMode() && log + (p + Concat(iov[i..])) == all
        invariant base == old(base) && size == old(size) && flags == old(flags)
        invariant nlknown && |p| > 0 ==> KnownLine(p, nldist)
        invariant quiet ==> '\n' !in p + Concat(iov[i..]) && |Line()| + resid < size && device == old(device)
        invariant |line| < size ==> LastLine(Line() + (p + Concat(iov[i..]))) == line
        decreases resid, tail
      {
        var moved;
        i, p, moved := NextVector(iov, i, p);
        if moved {
          nlknown := false;
        }
        if !nlknown {
          nldist := NewlineDistance(p);
          nlknown := true;
        }
        ghost var was := log;
        var w := LineTurn(p, nldist, Concat(iov[i..]));
        Take(was, p, Concat(iov[i..]), w);
        if w == EOF {
          return EOF;
        }
        nldist := nldist - w;
        if nldist == 0 {
          nlknown := false;
        }
        p := p[w..];
        resid := resid - w;
      }
      assert Line() + (p + Concat(iov[i..])) == Line();
      OneLine(Line());
      return 0;
    }

    method NewlineDistance(p: seq<char>) returns (n: nat)
      ensures KnownLine(p, n) && n > 0
    {
      n := LineLength(p);
    }

    /** Output in pieces is the same output. */
    static lemma Take(log: seq<char>, p: seq<char>, more: seq<char>, w: int)
      requires w <= |p|
      ensures w >= 0 ==> (log + p[..w]) + (p[w..] + more) == log + (p + more) && |p[w..] + more| == |p + more| - w
      ensures log + p <= log + (p + more)
    {
    }

    /** Writes the vectors; 0 on success. */
    method Sfvwrite(iov: seq<seq<char>>, resid: nat) returns (r: int)
      requires Valid() && resid == |Concat(iov)|
      requires StringMode() ==> Min(size, |log| + resid) <= base.Length
      modifies this, base
      ensures Valid() && base == old(base) && size == old(size)
      ensures (StringMode() <==> old(StringMode())) && (LineMode() <==> old(LineMode()))
      ensures r == 0 || r == EOF
      ensures r == 0 ==> flags == old(flags) && log == old(log) + Concat(iov)
      ensures r == EOF ==> flags == old(flags) + {SERR} && log <= old(log) + Concat(iov)
      ensures old(LineMode()) && r == 0 && |LastLine(old(Buffered()) + Concat(iov))| < size ==>
                Buffered() == LastLine(old(Buffered()) + Concat(iov))
      ensures old(LineMode()) && '\n' !in Concat(iov) && old(tail) + |Concat(iov)| < size ==>
                r == 0 && device == old(device) && Buffered() == old(Buffered()) + Concat(iov)
      ensures StringMode() ==> r == 0
      ensures StringMode() ==> forall j :: Min(size, |log|) <= j < base.Length ==> base[j] == old(base[j])
    {
      if resid == 0 {
        if LineMode() {
          OneLine(Buffered() + Concat(iov));
        }
        return 0;
      }
      if SNBF in flags {
        r := WriteUnbuffered(iov, resid);
      } else if SLBF !in flags {
        WriteString(iov, resid);
        return 0;
      } else {
        r := WriteLines(iov, resid);
      }
    }
  }
}
