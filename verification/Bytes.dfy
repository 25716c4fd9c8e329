/** Strings of bytes: the original's std::string holds chars of eight bits. */
module Bytes {
  ghost predicate IsBytes(s: string) {
    forall i :: 0 <= i < |s| ==> s[i] as int < 256
  }

  /** The first position of a character, or the length of the string. */
  function IndexOf(s: string, c: char): (k: nat)
    ensures k <= |s| && c !in s[..k]
    ensures k < |s| ==> s[k] == c
  {
    if s == "" || s[0] == c then 0
    else
      var k := 1 + IndexOf(s[1..], c);
      assert s[..k] == [s[0]] + s[1..][..k - 1];
      k
  }

  /** The part of a string that c_str() shows: everything before the first NUL. */
  function CString(s: string): (r: string)
    ensures r <= s && '\0' !in r
  {
    s[..IndexOf(s, '\0')]
  }

  lemma {:induction false} IndexOfAt(a: string, c: char, b: string)
    requires c !in a
    ensures IndexOf(a + [c] + b, c) == |a|
  {
    var s := a + [c] + b;
    if a != "" {
      assert a[0] in a;
      assert s[1..] == a[1..] + [c] + b;
      IndexOfAt(a[1..], c, b);
    }
  }

  lemma {:induction false} IndexOfNone(a: string, c: char)
    requires c !in a
    ensures IndexOf(a, c) == |a|
  {
    if a != "" {
      assert a[0] in a;
      IndexOfNone(a[1..], c);
    }
  }

  lemma Regroup(a: string, b: string, c: string)
    ensures a + b + c == a + (b + c)
  {
  }

  lemma TakeMore(s: string, k: nat)
    requires k < |s|
    ensures s[..k + 1] == s[..k] + [s[k]]
  {
  }

  lemma SliceMore(s: string, start: nat, k: nat)
    requires start <= k < |s|
    ensures s[start..k + 1] == s[start..k] + [s[k]]
  {
  }

  /** A string cut at the first occurrence of a character it holds. */
  lemma CutAt(s: string, c: char) returns (before: string, after: string)
    requires c in s
    ensures c !in before && s == before + [c] + after
  {
    var k := IndexOf(s, c);
    assert s[..|s|] == s;
    before, after := s[..k], s[k + 1..];
  }

  lemma CStringWithoutNul(s: string)
    requires '\0' !in s
    ensures CString(s) == s
  {
    IndexOfNone(s, '\0');
  }

  /** isspace in the C locale. */
  predicate IsSpace(c: char) {
    c == ' ' || '\t' <= c <= '\r'
  }

  function Lower(c: char): char {
    if 'A' <= c <= 'Z' then c - 'A' + 'a' else c
  }

  predicate SameIgnoringCase(a: string, b: string) {
    |a| == |b| && forall i :: 0 <= i < |a| ==> Lower(a[i]) == Lower(b[i])
  }

  ghost predicate AllSpaces(s: string) {
    forall i :: 0 <= i < |s| ==> IsSpace(s[i])
  }

  /** Where the values of the original's 32-bit unsigned end. */
  const UNSIGNED_LIMIT: nat := 0x1_0000_0000

  /** An unsigned position after adding the result of a write, -1 included. */
  function Advanced(pos: nat, ret: int): nat
    requires ret >= -1 && pos < UNSIGNED_LIMIT
  {
    if pos + ret < 0 then UNSIGNED_LIMIT - 1 else pos + ret
  }

  // --- characters by name ---

  const UPPER := "ABCDEFGHIJKLMNOPQRSTUVWXYZ"
  const LOWER := "abcdefghijklmnopqrstuvwxyz"
  const DIGITS := "0123456789"

  lemma UpperAt(k: nat)
    requires k < 26
    ensures UPPER[k] == 'A' + k as char
  {
  }

  lemma LowerAt(k: nat)
    requires k < 26
    ensures LOWER[k] == 'a' + k as char
  {
  }

  lemma DigitAt(k: nat)
    requires k < 10
    ensures DIGITS[k] == '0' + k as char
  {
  }

  lemma UpperRange(c: char)
    ensures c in UPPER <==> 'A' <= c <= 'Z'
  {
    if 'A' <= c <= 'Z' {
      UpperAt((c - 'A') as nat);
    }
    if c in UPPER {
      var k :| 0 <= k < |UPPER| && UPPER[k] == c;
      UpperAt(k);
    }
  }

  lemma LowerRange(c: char)
    ensures c in LOWER <==> 'a' <= c <= 'z'
  {
    if 'a' <= c <= 'z' {
      LowerAt((c - 'a') as nat);
    }
    if c in LOWER {
      var k :| 0 <= k < |LOWER| && LOWER[k] == c;
      LowerAt(k);
    }
  }

  lemma DigitRange(c: char)
    ensures c in DIGITS <==> '0' <= c <= '9'
  {
    if '0' <= c <= '9' {
      DigitAt((c - '0') as nat);
    }
    if c in DIGITS {
      var k :| 0 <= k < |DIGITS| && DIGITS[k] == c;
      DigitAt(k);
    }
  }

  lemma CharacterRanges(c: char)
    ensures c in UPPER <==> 'A' <= c <= 'Z'
    ensures c in LOWER <==> 'a' <= c <= 'z'
    ensures c in DIGITS <==> '0' <= c <= '9'
  {
    UpperRange(c);
    LowerRange(c);
    DigitRange(c);
  }

  /** Only the capital letters have a lower case of their own. */
  lemma LowerCase(k: nat, c: char)
    ensures k < 26 ==> Lower(UPPER[k]) == LOWER[k]
    ensures c !in UPPER ==> Lower(c) == c
  {
    if k < 26 {
      UpperAt(k);
      LowerAt(k);
    }
    UpperRange(c);
  }

  lemma Spaces(c: char)
    ensures IsSpace(c) <==> c in {' ', '\t', '\n', '\U{b}', '\U{c}', '\r'}
  {
  }
}
