/** The character classes in use, for the characters that the class tables cover. */
module Ctype {

  predicate IsSpace(c: char) {
    c == ' ' || '\t' <= c <= '\r'
  }

  predicate IsDigit(c: char) {
    '0' <= c <= '9'
  }

  predicate IsUpper(c: char) {
    'A' <= c <= 'Z'
  }

  predicate IsAlpha(c: char) {
    IsUpper(c) || 'a' <= c <= 'z'
  }

  /** The classes, character by character. */
  lemma ClassMembers(c: char)
    ensures IsSpace(c) <==> c in " \t\n\U{0b}\U{0c}\r"
    ensures IsDigit(c) <==> c in "0123456789"
    ensures IsUpper(c) <==> c in "ABCDEFGHIJKLMNOPQRSTUVWXYZ"
    ensures IsAlpha(c) <==> c in "ABCDEFGHIJKLMNOPQRSTUVWXYZ" || c in "abcdefghijklmnopqrstuvwxyz"
  {
    InRange(c, "0123456789");
    InRange(c, "ABCDEFGHIJKLMNOPQRSTUVWXYZ");
    InRange(c, "abcdefghijklmnopqrstuvwxyz");
  }

  /** Consecutive characters are an interval. */
  lemma InRange(c: char, s: seq<char>)
    requires |s| > 0 && s[0] as int + |s| <= 0xd800
    requires forall i :: 0 <= i < |s| ==> s[i] as int == s[0] as int + i
    ensures c in s <==> s[0] <= c <= s[|s| - 1]
  {
    if s[0] <= c <= s[|s| - 1] {
      assert s[c as int - s[0] as int] == c;
    }
  }
}
