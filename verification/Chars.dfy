/** Characters and numbers in query texts. */
module Chars {
  import opened Radix

  function LowerChar(c: char): char { if 'A' <= c <= 'Z' then c + 32 as char else c }

  /** cql_strcmp gives 0. */
  predicate SameWord(a: string, b: string) {
    |a| == |b| && forall k :: 0 <= k < |a| ==> LowerChar(a[k]) == LowerChar(b[k])
  }

  predicate IsDigit(c: char) { '0' <= c <= '9' }

  function SkipBlanks(s: string, i: nat): (j: nat)
    requires i <= |s|
    ensures i <= j <= |s| && (j < |s| ==> s[j] != ' ') && forall k :: i <= k < j ==> s[k] == ' '
    decreases |s| - i
  {
    if i < |s| && s[i] == ' ' then SkipBlanks(s, i + 1) else i
  }

  function SkipWhite(s: string, i: nat): (j: nat)
    requires i <= |s|
    ensures i <= j <= |s|
    decreases |s| - i
  {
    if i < |s| && (s[i] == ' ' || '\t' <= s[i] <= '\r') then SkipWhite(s, i + 1) else i
  }

  /** The value of a character as a digit; 36 if it is none. */
  function DigitOf(c: char): nat {
    if IsDigit(c) then (c - '0') as nat
    else if 'a' <= LowerChar(c) <= 'z' then (LowerChar(c) - 'a') as nat + 10
    else 36
  }

  /** The value of the digits at `i`, continuing `acc`. */
  function DigitsFrom(s: string, i: nat, base: nat, acc: nat): nat
    requires i <= |s|
    decreases |s| - i
  {
    if i < |s| && DigitOf(s[i]) < base then DigitsFrom(s, i + 1, base, acc * base + DigitOf(s[i])) else acc
  }

  /** atoi, and strtol with base 0 if `anyBase`: white space, a sign, and digits. */
  function Number(s: string, anyBase: bool): int {
    var i := SkipWhite(s, 0);
    var signed := i < |s| && (s[i] == '-' || s[i] == '+');
    var j := if signed then i + 1 else i;
    var n :=
      if !anyBase || j == |s| || s[j] != '0' then DigitsFrom(s, j, 10, 0)
      else if j + 2 < |s| && LowerChar(s[j + 1]) == 'x' && DigitOf(s[j + 2]) < 16 then DigitsFrom(s, j + 2, 16, 0)
      else DigitsFrom(s, j, 8, 0);
    if signed && s[i] == '-' then -n else n
  }

  function DigitChars(d: seq<nat>): (text: string)
    requires forall k :: 0 <= k < |d| ==> d[k] < 10
    ensures |text| == |d| && forall k :: 0 <= k < |d| ==> IsDigit(text[k])
  {
    seq(|d|, k requires 0 <= k < |d| => '0' + d[k] as char)
  }

  /** printf's %d. */
  function IntText(n: int): (text: string)
    ensures |text| > 0 && (IsDigit(text[0]) <==> n >= 0) && (n < 0 ==> text[0] == '-')
    ensures forall k :: 0 <= k < |text| ==> text[k] == '-' || IsDigit(text[k])
  {
    if n >= 0 then DigitChars(Digits(10, n)) else "-" + DigitChars(Digits(10, -n))
  }
}
