/** JSON string literals, src/json.c:124-227 and src/utf8.c:159-217: which texts are literals and what they
    stand for. */
module JsonStrings {
  import opened Bytes
  import opened Pieces
  import opened Atoin
  import opened Json
  import Radix

  // ---- UTF-8

  predicate IsContinuation(b: byte) { 0x80 <= b < 0xc0 }

  /** One character of the Basic Multilingual Plane in UTF-8, in its shortest form. */
  predicate IsUtf8(u: seq<byte>) {
    || (|u| == 1 && u[0] < 0x80)
    || (|u| == 2 && 0xc2 <= u[0] < 0xe0 && IsContinuation(u[1]))
    || (|u| == 3 && 0xe0 <= u[0] < 0xf0 && IsContinuation(u[1]) && IsContinuation(u[2]) &&
        (u[0] == 0xe0 ==> u[1] >= 0xa0))
  }

  /** The payload bits of the octets, read as one number. */
  function Payload(u: seq<byte>): nat
    requires IsUtf8(u)
  {
    if |u| == 1 then u[0]
    else if |u| == 2 then 64 * (u[0] as int - 0xc0) + (u[1] as int - 0x80)
    else 4096 * (u[0] as int - 0xe0) + 64 * (u[1] as int - 0x80) + (u[2] as int - 0x80)
  }

  /** The octets written for a code are UTF-8 for it, and no others are. */
  lemma Utf8Exact(code: nat, u: seq<byte>)
    requires code <= 0xffff
    ensures IsUtf8(u) && Payload(u) == code <==> u == Utf8(code)
  {
    if u == Utf8(code) {
      Utf8Payload(code);
    } else if IsUtf8(u) && Payload(u) == code {
      PayloadUnique(u);
    }
  }

  lemma Utf8Payload(code: nat)
    requires code <= 0xffff
    ensures IsUtf8(Utf8(code)) && Payload(Utf8(code)) == code
  {
    assert code / 4096 == code / 64 / 64;
  }

  lemma PayloadUnique(u: seq<byte>)
    requires IsUtf8(u)
    ensures Payload(u) <= 0xffff && Utf8(Payload(u)) == u
  {
    if |u| == 2 {
      Quotient(u[0] - 0xc0, u[1] - 0x80, 64);
      assert u == [u[0], u[1]];
    } else if |u| == 3 {
      var high := 64 * (u[0] as int - 0xe0) + (u[1] as int - 0x80);
      Quotient(u[0] - 0xe0, u[1] - 0x80, 64);
      Quotient(high, u[2] - 0x80, 64);
      assert Payload(u) / 4096 == high / 64;
      assert u == [u[0], u[1], u[2]];
    }
  }

  lemma Quotient(q: nat, r: nat, n: nat)
    requires r < n
    ensures (n * q + r) / n == q && (n * q + r) % n == r
  {
    Radix.DivMod(n * q + r, n);
    var q', r' := (n * q + r) / n, (n * q + r) % n;
    if q' < q { Radix.MulMono(q' + 1, q, n); }
    if q < q' { Radix.MulMono(q + 1, q', n); }
  }

  // ---- literals

  /** A character of a literal: an octet as it is, an escape with one letter, or one with four hexadecimal
      digits. */
  datatype Item = Plain(octet: byte) | Short(letter: byte) | Unicode(digits: seq<byte>)

  /** The escapes of section 7 of RFC 8259: letter and octet. */
  const SHORT: map<byte, byte> := map[34 := 34, 92 := 92, 47 := 47, 98 := 8, 102 := 12, 110 := 10, 114 := 13, 116 := 9]

  predicate IsItem(x: Item) {
    match x
    case Plain(b) => b > 31 && b != QUOTE && b != BACKSLASH
    case Short(c) => c in SHORT
    case Unicode(d) => |d| == 4 && IsNumeral(16, d)
  }

  function ItemText(x: Item): seq<byte> {
    match x
    case Plain(b) => [b]
    case Short(c) => [BACKSLASH, c]
    case Unicode(d) => [BACKSLASH, 117] + d
  }

  /** What the item stands for. */
  predicate StandsFor(x: Item, u: seq<byte>)
    requires IsItem(x)
  {
    match x
    case Plain(b) => u == [b]
    case Short(c) => u == [SHORT[c]]
    case Unicode(d) => IsUtf8(u) && Payload(u) == Numeral(16, d)
  }

  function ItemValue(x: Item): (u: seq<byte>)
    requires IsItem(x)
    ensures StandsFor(x, u)
  {
    match x
    case Plain(b) => [b]
    case Short(c) => [SHORT[c]]
    case Unicode(d) => FourBound(d); Utf8Payload(Numeral(16, d)); Utf8(Numeral(16, d))
  }

  lemma ShortIs(c: byte)
    ensures c in SHORT <==> Unescaped(c).Some?
    ensures c in SHORT ==> Unescaped(c).value == SHORT[c]
  {
  }

  lemma HexIs(b: byte)
    ensures HexValue(b) == if IsDigit(16, b) then Some(DigitValue(b)) else None
  {
  }

  lemma CodeIs(s: seq<byte>, i: nat, d: seq<byte>)
    requires OccursAt(s, i, d) && |d| == 4 && IsNumeral(16, d)
    ensures HexCode(s, i) == Some(Numeral(16, d)) && Numeral(16, d) <= 0xffff
  {
    assert s[i + 0] == d[0] && s[i + 1] == d[1] && s[i + 2] == d[2] && s[i + 3] == d[3];
    HexIs(d[0]);
    HexIs(d[1]);
    HexIs(d[2]);
    HexIs(d[3]);
    FourDigits(d);
    hide DigitValue, HexValue;
  }

  lemma FourDigits(d: seq<byte>)
    requires |d| == 4
    ensures Numeral(16, d) ==
              DigitValue(d[0]) * 4096 + DigitValue(d[1]) * 256 + DigitValue(d[2]) * 16 + DigitValue(d[3])
  {
    hide DigitValue;
    assert NumVal(16, d, 0, 1) == DigitValue(d[0]);
    assert NumVal(16, d, 0, 2) == NumVal(16, d, 0, 1) * 16 + DigitValue(d[1]);
    assert NumVal(16, d, 0, 3) == NumVal(16, d, 0, 2) * 16 + DigitValue(d[2]);
  }

  /** One item is read as what it stands for. */
  lemma ItemRead(s: seq<byte>, i: nat, x: Item)
    requires IsItem(x) && OccursAt(s, i, ItemText(x))
    ensures i < |s| && s[i] != QUOTE && OneChar(s, i).Char? && OneChar(s, i).next == i + |ItemText(x)|
    ensures OneChar(s, i).out == ItemValue(x)
  {
    hide HexCode, Utf8, Payload, IsUtf8, Numeral, OccursAt;
    OccursSlice(s, i, ItemText(x));
    assert s[i] == s[i..i + |ItemText(x)|][0];
    match x
    case Plain(b) => {}
    case Short(c) => {
      assert s[i + 1] == s[i..i + 2][1];
      ShortIs(c);
    }
    case Unicode(d) => {
      assert s[i + 1] == s[i..i + 6][1];
      ShortIs(117);
      OccursSplit(s, i, [BACKSLASH, 117], d);
      CodeIs(s, i + 2, d);
    }
  }

  predicate AreItems(xs: seq<Item>) { forall k :: 0 <= k < |xs| ==> IsItem(xs[k]) }

  function Literal(xs: seq<Item>): seq<byte> {
    if xs == [] then [] else ItemText(xs[0]) + Literal(xs[1..])
  }

  function LiteralValue(xs: seq<Item>): seq<byte>
    requires AreItems(xs)
  {
    if xs == [] then [] else ItemValue(xs[0]) + LiteralValue(xs[1..])
  }

  /** The octets are those that the items stand for, one after the other. */
  predicate Means(xs: seq<Item>, t: seq<byte>)
    requires AreItems(xs)
  {
    if xs == [] then t == []
    else exists n :: 0 <= n <= |t| && StandsFor(xs[0], t[..n]) && Means(xs[1..], t[n..])
  }

  /** Every literal is read to its closing quote, as its value. */
  lemma {:induction false} LiteralRead(s: seq<byte>, i: nat, xs: seq<Item>)
    requires AreItems(xs) && OccursAt(s, i, Literal(xs) + [QUOTE])
    ensures i <= |s| && Chars(s, i) == Char(LiteralValue(xs), i + |Literal(xs)|)
    decreases |xs|
  {
    hide OccursAt, OneChar, IsItem, ItemValue, ItemText;
    if xs == [] {
      assert [] + [QUOTE] == [QUOTE];
      OccursOne(s, i, QUOTE);
    } else {
      var first, rest := ItemText(xs[0]), Literal(xs[1..]);
      Regroup(first, rest, [QUOTE]);
      OccursSplit(s, i, first, rest + [QUOTE]);
      ItemRead(s, i, xs[0]);
      LiteralRead(s, i + |first|, xs[1..]);
    }
  }

  /** That value, and no other, is what it stands for. */
  lemma {:induction false} LiteralMeans(xs: seq<Item>, t: seq<byte>)
    requires AreItems(xs)
    ensures Means(xs, t) <==> t == LiteralValue(xs)
  {
    ValueMeans(xs);
    if Means(xs, t) { MeansOne(xs, t, LiteralValue(xs)); }
  }

  lemma {:induction false} ValueMeans(xs: seq<Item>)
    requires AreItems(xs)
    ensures Means(xs, LiteralValue(xs))
    decreases |xs|
  {
    hide IsItem, StandsFor, ItemValue;
    if xs != [] {
      ValueMeans(xs[1..]);
      MeansStep(xs, ItemValue(xs[0]), LiteralValue(xs[1..]));
    }
  }

  lemma MeansStep(xs: seq<Item>, a: seq<byte>, b: seq<byte>)
    requires AreItems(xs) && xs != [] && StandsFor(xs[0], a) && Means(xs[1..], b)
    ensures Means(xs, a + b)
  {
    hide StandsFor;
    assert (a + b)[..|a|] == a && (a + b)[|a|..] == b;
  }

  /** What a literal stands for is unique. */
  lemma {:induction false} MeansOne(xs: seq<Item>, t: seq<byte>, u: seq<byte>)
    requires AreItems(xs) && Means(xs, t) && Means(xs, u)
    ensures t == u
    decreases |xs|
  {
    hide StandsFor, IsItem;
    if xs != [] {
      var m :| 0 <= m <= |t| && StandsFor(xs[0], t[..m]) && Means(xs[1..], t[m..]);
      var n :| 0 <= n <= |u| && StandsFor(xs[0], u[..n]) && Means(xs[1..], u[n..]);
      StandsForOne(xs[0], t[..m], u[..n]);
      MeansOne(xs[1..], t[m..], u[n..]);
      assert t == t[..m] + t[m..] && u == u[..n] + u[n..];
    }
  }

  lemma StandsForOne(x: Item, t: seq<byte>, u: seq<byte>)
    requires IsItem(x) && StandsFor(x, t) && StandsFor(x, u)
    ensures t == u
  {
    hide IsUtf8, Payload, Numeral;
    if x.Unicode? {
      FourBound(x.digits);
      Utf8Exact(Numeral(16, x.digits), t);
      Utf8Exact(Numeral(16, x.digits), u);
    }
  }

  lemma FourBound(d: seq<byte>)
    requires |d| == 4 && IsNumeral(16, d)
    ensures Numeral(16, d) <= 0xffff
  {
    CodeIs(d, 0, d);
  }

  /** Whatever is read from a C string is a literal. */
  lemma {:induction false} LiteralFound(s: seq<byte>, i: nat) returns (xs: seq<Item>)
    requires i <= |s| && Chars(s, i).Char? && 0 !in s
    ensures AreItems(xs) && Literal(xs) == s[i..Chars(s, i).next]
    decreases |s| - i
  {
    hide OneChar, IsItem, ItemText;
    if s[i] == QUOTE {
      xs := [];
    } else {
      var x := ItemFound(s, i);
      var n := OneChar(s, i).next;
      var rest := LiteralFound(s, n);
      xs := [x] + rest;
      assert s[i..Chars(s, i).next] == s[i..n] + s[n..Chars(s, i).next];
    }
  }

  lemma ItemFound(s: seq<byte>, i: nat) returns (x: Item)
    requires i < |s| && s[i] != QUOTE && OneChar(s, i).Char? && OneChar(s, i).next < |s| && 0 !in s
    ensures IsItem(x) && ItemText(x) == s[i..OneChar(s, i).next]
  {
    hide Numeral;
    assert i + 1 < |s| ==> s[i + 1] in s;
    if s[i] != BACKSLASH {
      x := Plain(s[i]);
      assert s[i] in s;
    } else if Unescaped(s[i + 1]).Some? {
      ShortIs(s[i + 1]);
      x := Short(s[i + 1]);
    } else {
      DigitsFound(s, i + 2);
      x := Unicode(s[i + 2..i + 6]);
      assert s[i..i + 6] == [BACKSLASH, 117] + s[i + 2..i + 6];
    }
  }

  lemma DigitsFound(s: seq<byte>, i: nat)
    requires HexCode(s, i).Some?
    ensures i + 4 <= |s| && IsNumeral(16, s[i..i + 4])
  {
    HexIs(s[i]);
    HexIs(s[i + 1]);
    HexIs(s[i + 2]);
    HexIs(s[i + 3]);
  }
}
