/** Positional notation, the common ground of the decimal, hexadecimal, base-128 and base-256 numbers
    in the wire formats. */
module Radix {
  function Pow(base: nat, n: nat): nat {
    if n == 0 then 1 else Pow(base, n - 1) * base
  }

  /** Most significant digit first, without leading zeros ([0] for zero). */
  function Digits(base: nat, v: nat): (d: seq<nat>)
    requires 2 <= base
    ensures |d| >= 1
    ensures forall k :: 0 <= k < |d| ==> d[k] < base
    decreases v
  {
    if v < base then [v] else (Shrinks(v, base); Digits(base, v / base) + [v % base])
  }

  lemma Shrinks(v: nat, base: nat)
    requires 2 <= base <= v
    ensures 0 < v / base < v && 0 <= v % base < base
  {
    DivMod(v, base);
  }

  function Value(base: nat, d: seq<nat>): nat {
    if d == [] then 0 else Value(base, d[..|d| - 1]) * base + d[|d| - 1]
  }

  /** Zeros in front of `d` up to `width` digits. */
  function Pad(d: seq<nat>, width: nat): (p: seq<nat>)
    ensures |p| == if |d| >= width then |d| else width
    ensures forall k :: 0 <= k < |p| ==> p[k] == if k < |p| - |d| then 0 else d[k - (|p| - |d|)]
  {
    if |d| >= width then d else seq(width - |d|, _ => 0) + d
  }

  lemma PadStep(d: seq<nat>, width: nat)
    requires |d| < width
    ensures Pad(d, width) == [0] + Pad(d, width - 1)
  {
  }

  lemma DivMod(v: nat, base: nat)
    requires 1 <= base
    ensures v / base * base + v % base == v
  {
  }

  lemma ValueSnoc(base: nat, d: seq<nat>, x: nat)
    ensures Value(base, d + [x]) == Value(base, d) * base + x
  {
    assert (d + [x])[..|d|] == d;
  }

  lemma {:induction false} ValueDigits(base: nat, v: nat)
    requires 2 <= base
    ensures Value(base, Digits(base, v)) == v
    decreases v
  {
    hide Value;
    if v >= base {
      ValueDigits(base, v / base);
      ValueSnoc(base, Digits(base, v / base), v % base);
      DivMod(v, base);
    } else {
      ValueSingle(base, v);
    }
  }

  lemma ValueSingle(base: nat, x: nat)
    ensures Value(base, [x]) == x
  {
    assert [x][..0] == [];
  }

  lemma {:induction false} LengthBound(base: nat, v: nat, n: nat)
    requires 2 <= base && 1 <= n
    requires v < Pow(base, n)
    ensures |Digits(base, v)| <= n
    decreases n
  {
    if v >= base {
      assert Pow(base, 0) * base == base;
      DivBelow(v, Pow(base, n - 1), base);
      LengthBound(base, v / base, n - 1);
    }
  }

  lemma DivBelow(v: nat, p: nat, base: nat)
    requires 1 <= base && v < p * base
    ensures v / base < p
  {
    var q := v / base;
    assert q * base <= v;
    if q >= p { MulMono(p, q, base); }
  }

  lemma {:induction false} ValueBound(base: nat, d: seq<nat>)
    requires 1 <= base
    requires forall k :: 0 <= k < |d| ==> d[k] < base
    ensures Value(base, d) < Pow(base, |d|)
  {
    if d != [] {
      ValueBound(base, d[..|d| - 1]);
      NextPlace(Value(base, d[..|d| - 1]), d[|d| - 1], Pow(base, |d| - 1), base);
    }
  }

  lemma NextPlace(v: nat, x: nat, p: nat, base: nat)
    requires v < p && x < base
    ensures v * base + x < p * base
  {
    MulMono(v + 1, p, base);
    assert (v + 1) * base == v * base + base;
  }

  lemma {:induction false} ValueLeadingZero(base: nat, d: seq<nat>)
    ensures Value(base, [0] + d) == Value(base, d)
  {
    if d == [] {
      assert [0][..0] == [];
    } else {
      assert ([0] + d)[..|d|] == [0] + d[..|d| - 1];
      ValueLeadingZero(base, d[..|d| - 1]);
    }
  }

  lemma {:induction false} ValuePad(base: nat, d: seq<nat>, width: nat)
    ensures Value(base, Pad(d, width)) == Value(base, d)
    decreases width
  {
    if |d| < width {
      hide Pad;
      PadStep(d, width);
      ValuePad(base, d, width - 1);
      ValueLeadingZero(base, Pad(d, width - 1));
    }
  }

  lemma {:induction false} ValueAppend(base: nat, d: seq<nat>, e: seq<nat>)
    ensures Value(base, d + e) == Value(base, d) * Pow(base, |e|) + Value(base, e)
    decreases |e|
  {
    if e == [] {
      assert d + e == d && Pow(base, 0) == 1;
    } else {
      var e', x := e[..|e| - 1], e[|e| - 1];
      ValueAppend(base, d, e');
      assert e == e' + [x];
      ValueAppendStep(base, d, e', x);
    }
  }

  lemma ValueAppendStep(base: nat, d: seq<nat>, e: seq<nat>, x: nat)
    requires Value(base, d + e) == Value(base, d) * Pow(base, |e|) + Value(base, e)
    ensures Value(base, d + (e + [x])) == Value(base, d) * Pow(base, |e| + 1) + Value(base, e + [x])
  {
    hide Value, Pow;
    assert d + (e + [x]) == (d + e) + [x];
    ValueSnoc(base, d + e, x);
    ValueSnoc(base, e, x);
    PowStep(base, |e|);
    Distribute(Value(base, d), Pow(base, |e|), Value(base, e), base, Pow(base, |e| + 1));
  }

  lemma PowStep(base: nat, n: nat)
    ensures Pow(base, n + 1) == Pow(base, n) * base
  {
  }

  lemma Distribute(x: int, p: int, y: int, base: int, q: int)
    requires q == p * base
    ensures (x * p + y) * base == x * q + y * base
  {
    MulAssoc(x, p, base);
  }

  lemma MulMono(a: nat, b: nat, c: nat)
    requires a <= b
    ensures a * c <= b * c
  {
  }

  lemma MulAssoc(x: int, y: int, z: int)
    ensures x * y * z == x * (y * z)
  {
  }

  /** Two digit strings of the same length with the same value are equal. */
  lemma {:induction false} ValueInjective(base: nat, d: seq<nat>, e: seq<nat>)
    requires 1 <= base && |d| == |e|
    requires forall k :: 0 <= k < |d| ==> d[k] < base && e[k] < base
    requires Value(base, d) == Value(base, e)
    ensures d == e
  {
    if d != [] {
      var n := |d| - 1;
      var x, y := Value(base, d[..n]), Value(base, e[..n]);
      SameQuotient(base, x, d[n], y, e[n]);
      ValueInjective(base, d[..n], e[..n]);
      assert d == d[..n] + [d[n]];
      assert e == e[..n] + [e[n]];
    }
  }

  lemma SameQuotient(base: nat, x: nat, a: nat, y: nat, b: nat)
    requires a < base && b < base && x * base + a == y * base + b
    ensures x == y && a == b
  {
    if x < y { MulMono(x + 1, y, base); }
    if y < x { MulMono(y + 1, x, base); }
  }
}
