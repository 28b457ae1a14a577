/** Number scanning, src/atoin.c. */
module Atoin {
  import opened Bytes
  import opened Pieces
  import opened Radix

  /** Value of an alphanumeric octet as a digit; 36 for every other octet. */
  function DigitValue(b: byte): (d: nat)
    ensures d <= 36
  {
    if 48 <= b <= 57 then b - 48
    else if 65 <= b <= 90 then b - 55
    else if 97 <= b <= 122 then b - 87
    else 36
  }

  predicate IsDigit(base: nat, b: byte) {
    DigitValue(b) < base
  }

  /** End of the longest run of base-`base` digits that starts at `i`. */
  function RunEnd(base: nat, s: seq<byte>, i: nat): (j: nat)
    requires base <= 36
    requires i <= |s|
    ensures i <= j <= |s|
    ensures forall k :: i <= k < j ==> IsDigit(base, s[k])
    ensures j < |s| ==> !IsDigit(base, s[j])
    decreases |s| - i
  {
    if i < |s| && IsDigit(base, s[i]) then RunEnd(base, s, i + 1) else i
  }

  /** Positional value of the digits s[i..j]. */
  function NumVal(base: nat, s: seq<byte>, i: nat, j: nat): nat
    requires i <= j <= |s|
    decreases j
  {
    if i == j then 0 else NumVal(base, s, i, j - 1) * base + DigitValue(s[j - 1])
  }

  /** What yaz_atoi reports for the text starting at `i`: octets read (-1 on overflow) and the value. */
  function Atoi(base: nat, s: seq<byte>, i: nat): (r: Option<(nat, nat)>)
    requires 2 <= base <= 36
    requires i <= |s|
  {
    var j := RunEnd(base, s, i);
    if NumVal(base, s, i, j) > INT_MAX then None else Some((j - i, NumVal(base, s, i, j)))
  }

  lemma MulAtLeast(v: nat, base: nat)
    requires 1 <= base
    ensures v <= v * base
  {
  }

  lemma {:induction false} NumValGrows(base: nat, s: seq<byte>, i: nat, j: nat, k: nat)
    requires 1 <= base
    requires i <= j <= k <= |s|
    ensures NumVal(base, s, i, j) <= NumVal(base, s, i, k)
  {
    if j < k {
      NumValGrows(base, s, i, j, k - 1);
      MulAtLeast(NumVal(base, s, i, k - 1), base);
    }
  }

  lemma {:induction false} NumValStable(base: nat, s: seq<byte>, t: seq<byte>, i: nat, j: nat)
    requires s <= t
    requires i <= j <= |s|
    ensures NumVal(base, s, i, j) == NumVal(base, t, i, j)
  {
    if i < j {
      NumValStable(base, s, t, i, j - 1);
    }
  }

  lemma RunEndUnique(base: nat, s: seq<byte>, i: nat, j: nat)
    requires base <= 36
    requires i <= j <= |s|
    requires forall k :: i <= k < j ==> IsDigit(base, s[k])
    requires j < |s| ==> !IsDigit(base, s[j])
    ensures RunEnd(base, s, i) == j
  {
  }

  /** A run that ends inside `s` ends at the same place in every extension of `s`; one cut off by
      the end of `s` can only get longer. */
  lemma RunEndStable(base: nat, s: seq<byte>, t: seq<byte>, i: nat)
    requires base <= 36
    requires s <= t
    requires i <= |s|
    ensures RunEnd(base, s, i) <= RunEnd(base, t, i)
    ensures RunEnd(base, s, i) < |s| ==> RunEnd(base, t, i) == RunEnd(base, s, i)
  {
    var j := RunEnd(base, s, i);
    if j < |s| {
      RunEndUnique(base, t, i, j);
    } else {
      assert t[..|s|] == s;
      assert forall k :: i <= k < j ==> t[k] == s[k];
    }
  }

  /** An overflow stays an overflow, and a number that ends inside `s` keeps its length and value. */
  lemma AtoiStable(base: nat, s: seq<byte>, t: seq<byte>, i: nat)
    requires 2 <= base <= 36
    requires s <= t
    requires i <= |s|
    ensures Atoi(base, s, i).None? ==> Atoi(base, t, i).None?
    ensures RunEnd(base, s, i) < |s| ==> Atoi(base, t, i) == Atoi(base, s, i)
  {
    var j, k := RunEnd(base, s, i), RunEnd(base, t, i);
    RunEndStable(base, s, t, i);
    NumValStable(base, s, t, i, j);
    NumValGrows(base, t, i, j, k);
  }

  /** The guard on the quotient is the overflow test on the product. */
  lemma OverflowTest(limit: nat, base: nat, val: nat)
    requires 1 <= base
    ensures val > limit / base <==> val * base > limit
  {
    var q := limit / base;
    assert q * base <= limit < (q + 1) * base;
    if val > q {
      MulMono(q + 1, val, base);
    } else {
      MulMono(val, q, base);
    }
  }

  /** yaz_atoul: the digit loop with its overflow guard computes the value of the whole run, or
      reports -1 exactly when that value does not fit an unsigned long. */
  method YazAtoul(base: int, s: seq<byte>, start: nat) returns (ret: int, val: nat)
    requires start <= |s|
    ensures base < 2 || base > 36 ==> ret == -1
    ensures 2 <= base <= 36 ==>
      var j := RunEnd(base, s, start);
      if NumVal(base, s, start, j) > ULONG_MAX then ret == -1
      else ret == j - start && val == NumVal(base, s, start, j)
  {
    val := 0;
    if base < 2 || base > 36 {
      return -1, val;
    }
    ghost var end := RunEnd(base, s, start);
    var i := start;
    while i < |s|
      invariant start <= i <= end
      invariant val == NumVal(base, s, start, i) <= ULONG_MAX
    {
      var digit := DigitValue(s[i]);
      if digit >= base {
        break;
      }
      OverflowTest(ULONG_MAX - digit, base, val);
      NumValGrows(base, s, start, i + 1, end);
      if val > (ULONG_MAX - digit) / base {
        return -1, val;
      }
      val := val * base + digit;
      i := i + 1;
    }
    RunEndUnique(base, s, start, i);
    return i - start, val;
  }

  /** yaz_atoi: as yaz_atoul, limited to a non-negative int. */
  method YazAtoi(base: int, s: seq<byte>, start: nat) returns (ret: int, val: nat)
    requires start <= |s| && 2 <= base <= 36
    ensures ret == -1 <==> Atoi(base, s, start).None?
    ensures ret != -1 ==> Atoi(base, s, start) == Some((ret, val))
  {
    ret, val := YazAtoul(base, s, start);
    if ret != -1 && val > INT_MAX {
      ret := -1;
    }
  }

  // ---- numerals in a buffer

  /** `text` is a numeral: at least one digit, and only digits. */
  predicate IsNumeral(base: nat, text: seq<byte>) {
    |text| > 0 && forall k :: 0 <= k < |text| ==> IsDigit(base, text[k])
  }

  function Numeral(base: nat, text: seq<byte>): nat {
    NumVal(base, text, 0, |text|)
  }

  lemma {:induction false} NumValShift(base: nat, s: seq<byte>, i: nat, text: seq<byte>, n: nat)
    requires OccursAt(s, i, text) && n <= |text|
    ensures NumVal(base, s, i, i + n) == NumVal(base, text, 0, n)
    decreases n
  {
    if n > 0 {
      NumValShift(base, s, i, text, n - 1);
      assert s[i + (n - 1)] == text[n - 1];
    }
  }

  /** A numeral followed by something that is no digit is read as a whole. */
  lemma ScanNumeral(base: nat, s: seq<byte>, i: nat, text: seq<byte>)
    requires 2 <= base <= 36 && IsNumeral(base, text) && OccursAt(s, i, text)
    requires i + |text| < |s| && !IsDigit(base, s[i + |text|])
    ensures RunEnd(base, s, i) == i + |text|
    ensures NumVal(base, s, i, i + |text|) == Numeral(base, text)
  {
    forall k | i <= k < i + |text| ensures IsDigit(base, s[k]) { assert s[i + (k - i)] == text[k - i]; }
    RunEndUnique(base, s, i, i + |text|);
    NumValShift(base, s, i, text, |text|);
  }

  /** Digits as text, most significant first, as printf's %d writes them for base 10. */
  function DigitText(d: seq<nat>): (text: seq<byte>)
    requires forall k :: 0 <= k < |d| ==> d[k] < 10
    ensures |text| == |d|
    ensures forall k :: 0 <= k < |d| ==> text[k] == 48 + d[k]
  {
    seq(|d|, k requires 0 <= k < |d| => 48 + d[k])
  }

  function Decimal(v: nat): (text: seq<byte>)
    ensures |text| == |Digits(10, v)| >= 1
    ensures forall k :: 0 <= k < |text| ==> 48 <= text[k] <= 57
  {
    DigitText(Digits(10, v))
  }

  lemma {:induction false} DigitTextValue(d: seq<nat>, n: nat)
    requires n <= |d| && forall k :: 0 <= k < |d| ==> d[k] < 10
    ensures NumVal(10, DigitText(d), 0, n) == Value(10, d[..n])
    decreases n
  {
    if n > 0 {
      DigitTextValue(d, n - 1);
      assert d[..n] == d[..n - 1] + [d[n - 1]];
      ValueSnoc(10, d[..n - 1], d[n - 1]);
    }
  }

  /** Printing and scanning are inverse: the text of `v` is a numeral of value `v`. */
  lemma DecimalValue(v: nat)
    ensures IsNumeral(10, Decimal(v)) && Numeral(10, Decimal(v)) == v
  {
    var d := Digits(10, v);
    DigitTextValue(d, |d|);
    assert d[..|d|] == d;
    ValueDigits(10, v);
  }
}
