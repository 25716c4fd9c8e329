/** Unsigned decimal text: what `ostream << n` prints and what the leading digits of a string are
    worth to `istream >> n` and to strtoul. */
module Decimal {
  predicate IsDigit(c: char) {
    '0' <= c <= '9'
  }

  ghost predicate AllDigits(s: string) {
    forall i :: 0 <= i < |s| ==> IsDigit(s[i])
  }

  function DigitOf(n: nat): (c: char)
    requires n < 10
  {
    '0' + n as char
  }

  /** The decimal text of a number, without leading zeros. */
  function Print(n: nat): string {
    if n < 10 then [DigitOf(n)] else Print(n / 10) + [DigitOf(n % 10)]
  }

  /** The value of the digits a string starts with, added to what has been read before, and their count. */
  function ReadDigits(s: string, before: nat): (r: (nat, nat))
    ensures r.1 <= |s|
  {
    if s == "" || !IsDigit(s[0]) then (before, 0)
    else
      var (v, used) := ReadDigits(s[1..], before * 10 + (s[0] - '0') as nat);
      (v, used + 1)
  }

  lemma {:induction false} ReadDigitsSnoc(digits: string, c: char, tail: string, before: nat)
    requires AllDigits(digits) && IsDigit(c)
    ensures ReadDigits(digits + [c] + tail, before)
         == var (v, used) := ReadDigits(digits, before);
            var (w, more) := ReadDigits(tail, v * 10 + (c - '0') as nat);
            (w, used + 1 + more)
  {
    var s := digits + [c] + tail;
    if digits == "" {
      assert s[1..] == tail;
    } else {
      assert s[1..] == digits[1..] + [c] + tail;
      ReadDigitsSnoc(digits[1..], c, tail, before * 10 + (digits[0] - '0') as nat);
    }
  }

  /** Reading a printed number gives it back. */
  lemma {:induction false} ReadPrinted(n: nat, tail: string)
    ensures AllDigits(Print(n)) && Print(n) != ""
    ensures ReadDigits(Print(n) + tail, 0)
         == var (v, more) := ReadDigits(tail, n); (v, |Print(n)| + more)
  {
    var front := if n < 10 then "" else Print(n / 10);
    var c := DigitOf(n % 10);
    if n >= 10 {
      ReadPrinted(n / 10, "");
      assert front + "" == front;
    }
    assert Print(n) == front + [c];
    ReadDigitsSnoc(front, c, tail, 0);
  }
}
