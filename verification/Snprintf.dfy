/** `snprintf` and `sprintf`: formatting into memory. */
module Snprintf {
  import opened Format
  import opened Streams
  import opened Vfprintf

  /** `INT_MAX` as c-lib.c defines it for its formatter. */
  const SPRINTF_LIMIT := 32767

  /** Memory after the call: the text as far as `size` allows, NUL, and the old bytes behind that. */
  function Written(was: seq<char>, size: nat, text: seq<char>): (now: seq<char>)
    requires Min(size, |text|) < |was|
    ensures |now| == |was|
  {
    var m := Min(size, |text|);
    text[..m] + ['\0'] + was[m + 1..]
  }

  /** At most `size` characters and then NUL: one more byte than `size` when the text is longer.
      Nothing behind the NUL is touched. */
  method Snprintf(str: array<char>, size: nat, fmt: CString, args: seq<Arg>)
    returns (ret: nat, stores: seq<Store>)
    requires Min(size, |RenderV(fmt, args)|) < str.Length
    modifies str
    ensures ret == |RenderV(fmt, args)| && stores == StoresV(fmt, 0, args, 0, 0)
    ensures var m := Min(size, |RenderV(fmt, args)|);
            str[..m] == RenderV(fmt, args)[..m] && str[m] == '\0' && str[m + 1..] == old(str[m + 1..])
    ensures str[..] == Written(old(str[..]), size, RenderV(fmt, args))
  {
    var f := new Stream.Str(str, size);
    ghost var text := RenderV(fmt, args);
    assert f.log + text == text;
    ret, stores := Vfprintf.Vfprintf(f, fmt, args);
    assert f.log == text;
    ghost var kept, m := str[..f.tail], f.tail;
    assert str[m..][1..] == str[m + 1..] && f.before[m..][1..] == f.before[m + 1..];
    str[f.tail] := '\0';
    assert str[..f.tail] == kept;
    assert str[m + 1..] == f.before[m + 1..];
    assert str[..] == str[..m] + [str[m]] + str[m + 1..];
  }

  /** The same with a limit that no caller can set. */
  method Sprintf(str: array<char>, fmt: CString, args: seq<Arg>)
    returns (ret: nat, stores: seq<Store>)
    requires Min(32767, |RenderV(fmt, args)|) < str.Length
    modifies str
    ensures ret == |RenderV(fmt, args)| && stores == StoresV(fmt, 0, args, 0, 0)
    ensures str[..] == Written(old(str[..]), 32767, RenderV(fmt, args))
    ensures ret <= 32767 ==> str[..ret] == RenderV(fmt, args) && str[ret] == '\0'
  {
    ret, stores := Snprintf(str, SPRINTF_LIMIT, fmt, args);
  }

  /** The call keeps to `size` bytes, whatever they hold, exactly when the text is shorter than that. */
  lemma KeepsToSize(size: nat, text: seq<char>)
    ensures (forall was: seq<char> :: size <= |was| && Min(size, |text|) < |was| ==>
               Written(was, size, text)[size..] == was[size..]) <==> |text| < size
  {
    if |text| < size {
      forall was: seq<char> | size <= |was| && Min(size, |text|) < |was|
        ensures Written(was, size, text)[size..] == was[size..]
      {
        Behind(was, size, text);
      }
    } else {
      var was := Rep('.', size + 1);
      assert Written(was, size, text)[size..][0] == '\0' && was[size..][0] == '.';
    }
  }

  lemma Behind(was: seq<char>, size: nat, text: seq<char>)
    requires |text| < size <= |was|
    ensures Written(was, size, text)[size..] == was[size..]
  {
    var k := size - (|text| + 1);
    assert was[size..] == was[|text| + 1..][k..];
  }

  /** Three characters into two bytes: the NUL lands on the third. */
  lemma NulBeyondSize()
    ensures RenderV("abc", []) == "abc"
    ensures Written("....", 2, RenderV("abc", [])) == ['a', 'b', '\0', '.']
  {
    var fmt: CString := "abc";
    assert PercentAt(fmt, 3) == 3;
    assert PercentAt(fmt, 2) == 3;
    assert PercentAt(fmt, 1) == 3;
    assert fmt[0..3] == fmt;
    assert PiecesV(fmt, 0, [], 0) == [Literal(fmt)];
    assert [Literal(fmt)][1..] == [];
  }
}
