/** `memmove` in one flat memory, and `strstr` over terminated strings. */
module Memory {
  import opened Format

  /** Copies upwards or downwards so that overlapping ranges come out right. */
  method Memmove(mem: array<char>, dst0: nat, src0: nat, length0: nat)
    requires dst0 + length0 <= mem.Length && src0 + length0 <= mem.Length
    modifies mem
    ensures mem[dst0..dst0 + length0] == old(mem[src0..src0 + length0])
    ensures forall k :: 0 <= k < mem.Length && !(dst0 <= k < dst0 + length0) ==> mem[k] == old(mem[k])
  {
    var dst, src, length := dst0, src0, length0;
    ghost var was := mem[..];
    if src < dst && dst < src + length {
      src := src + length;
      dst := dst + length;
      while length != 0
        invariant 0 <= length <= length0 && src == src0 + length && dst == dst0 + length
        invariant forall k :: dst <= k < dst0 + length0 ==> mem[k] == was[k - dst0 + src0]
        invariant forall k :: 0 <= k < mem.Length && !(dst <= k < dst0 + length0) ==> mem[k] == was[k]
      {
        length := length - 1;
        dst := dst - 1;
        src := src - 1;
        mem[dst] := mem[src];
      }
    } else {
      while length != 0
        invariant 0 <= length <= length0 && src == src0 + (length0 - length) && dst == dst0 + (length0 - length)
        invariant forall k :: dst0 <= k < dst ==> mem[k] == was[k - dst0 + src0]
        invariant forall k :: 0 <= k < mem.Length && !(dst0 <= k < dst) ==> mem[k] == was[k]
      {
        length := length - 1;
        mem[dst] := mem[src];
        dst := dst + 1;
        src := src + 1;
      }
    }
    assert mem[dst0..dst0 + length0] == was[src0..src0 + length0];
  }

  ghost predicate OccursAt(s: CString, needle: CString, k: nat) {
    k + |needle| <= |s| && s[k..k + |needle|] == needle
  }

  /** The least position of the needle, or -1; both strings are read up to their terminators only. */
  method Strstr(s: CString, needle: CString) returns (r: int)
    ensures r >= 0 ==> OccursAt(s, needle, r) && forall k: nat :: k < r ==> !OccursAt(s, needle, k)
    ensures r < 0 ==> r == -1 && forall k: nat :: !OccursAt(s, needle, k)
  {
    var searchee, lookfor := s + ['\0'], needle + ['\0'];
    var at := 0;
    if searchee[0] == '\0' {
      return if lookfor[0] != '\0' then -1 else 0;
    }
    while searchee[at] != '\0'
      invariant 0 <= at <= |s| && (at > 0 ==> |needle| > 0)
      invariant forall k: nat :: k < at ==> !OccursAt(s, needle, k)
      decreases |s| - at
    {
      var i := 0;
      while true
        invariant 0 <= i <= |needle| && at + i <= |s| && s[at..at + i] == needle[..i]
        decreases |needle| - i
      {
        if lookfor[i] == '\0' {
          return at;
        }
        if lookfor[i] != searchee[at + i] {
          assert OccursAt(s, needle, at) ==> s[at..at + |needle|][i] == needle[i];
          break;
        }
        assert s[at..at + i + 1] == s[at..at + i] + [s[at + i]] && needle[..i + 1] == needle[..i] + [needle[i]];
        i := i + 1;
      }
      at := at + 1;
    }
    return -1;
  }
}
