/** BER identifier and length octets, src/ber_tag.c and src/ber_len.c. */
module BerHeader {
  import opened Bytes
  import opened Radix

  const WORD := 0x1_0000_0000

  // ---- the octet strings of sections 8.1.2 and 8.1.3 of X.690

  /** Identifier octets: one octet, or a leading octet with all tag bits set and base-128 octets of
      which all but the last carry the continuation bit. */
  predicate IsIdentifier(id: seq<byte>) {
    if |id| == 0 then false
    else if id[0] % 32 <= 30 then |id| == 1
    else
      && |id| >= 2
      && (forall k :: 1 <= k < |id| - 1 ==> id[k] >= 128)
      && id[|id| - 1] < 128
  }

  /** The form bit of identifier octets. */
  predicate IsConstructed(id: seq<byte>) { id != [] && id[0] / 32 % 2 == 1 }

  /** Definite length octets for the value `len`, with at most three octets in the long form. */
  predicate IsLength(octets: seq<byte>, len: nat) {
    || (|octets| == 1 && octets[0] < 128 && len == octets[0])
    || (2 <= |octets| <= 4 && octets[0] == 128 + |octets| - 1 && len == Value(256, octets[1..]))
  }

  function Low7(b: byte): nat {
    b % 128
  }

  function SevenBits(octets: seq<byte>): (d: seq<nat>)
    ensures |d| == |octets|
  {
    seq(|octets|, k requires 0 <= k < |octets| => Low7(octets[k]))
  }

  /** The number in identifier octets, in the 32 bits of a C int. */
  function TagNumber(id: seq<byte>): nat
    requires IsIdentifier(id)
  {
    if |id| == 1 then id[0] % 32 else Value(128, SevenBits(id[1..])) % WORD
  }

  /** A number as base-128 octets with continuation bits, shortest form. */
  function Base128(v: nat): (octets: seq<byte>)
    ensures |octets| == |Digits(128, v)|
  {
    var d := Digits(128, v);
    seq(|d|, k requires 0 <= k < |d| => if k + 1 < |d| then d[k] + 128 else d[k])
  }

  /** The identifier octets that ber_enctag writes. */
  function EncTag(zclass: nat, tag: nat, cons: bool): (octets: seq<byte>)
    requires zclass < 4
    ensures |octets| >= 1
  {
    var b := zclass * 64 + (if cons then 32 else 0);
    if tag <= 30 then [b + tag] else [b + 31] + Base128(tag)
  }

  // ---- decoding identifier octets

  datatype Tag = Tag(n: nat, zclass: nat, tag: nat, cons: bool)

  /** End of the base-128 octets at `l`, and the accumulated number. */
  function HighTag(s: seq<byte>, l: nat, acc: nat): (r: Option<(nat, nat)>)
    ensures r.Some? ==> l < r.value.0 <= |s| && s[r.value.0 - 1] < 128
    ensures r.Some? ==> forall k :: l <= k < r.value.0 - 1 ==> s[k] >= 128
    decreases |s| - l
  {
    if l >= |s| then None
    else
      var acc' := (acc * 128 + s[l] % 128) % WORD;
      if s[l] >= 128 then HighTag(s, l + 1, acc') else Some((l + 1, acc'))
  }

  /** ber_dectag at position `i` of `s`: None when octets are missing. */
  function DecTag(s: seq<byte>, i: nat): (r: Option<Tag>)
    ensures r.Some? ==> 1 <= r.value.n && i + r.value.n <= |s|
  {
    if i >= |s| then None
    else
      var b := s[i];
      var cons := b / 32 % 2 == 1;
      if b % 32 <= 30 then Some(Tag(1, b / 64, b % 32, cons))
      else
        match HighTag(s, i + 1, 0)
        case None => None
        case Some((end, tag)) => Some(Tag(end - i, b / 64, tag, cons))
  }

  lemma {:induction false} HighTagStable(s: seq<byte>, t: seq<byte>, l: nat, acc: nat)
    requires s <= t
    ensures HighTag(s, l, acc).Some? ==> HighTag(t, l, acc) == HighTag(s, l, acc)
    decreases |s| - l
  {
    if l < |s| && s[l] >= 128 {
      HighTagStable(s, t, l + 1, (acc * 128 + s[l] % 128) % WORD);
    }
  }

  lemma DecTagStable(s: seq<byte>, t: seq<byte>, i: nat)
    requires s <= t
    ensures DecTag(s, i).Some? ==> DecTag(t, i) == DecTag(s, i)
  {
    HighTagStable(s, t, i + 1, 0);
  }

  lemma ModStep(a: nat, d: nat)
    ensures (a % WORD * 128 + d) % WORD == (a * 128 + d) % WORD
  {
    var q := a / WORD;
    assert a == q * WORD + a % WORD;
    assert a * 128 + d == (q * 128) * WORD + (a % WORD * 128 + d);
    ModShift(q * 128, a % WORD * 128 + d);
  }

  lemma {:induction false} ModShift(q: nat, r: nat)
    ensures (q * WORD + r) % WORD == r % WORD
  {
    if q > 0 {
      ModShift(q - 1, r);
      assert q * WORD + r == ((q - 1) * WORD + r) + WORD;
    }
  }

  /** The scanner accepts exactly one string of base-128 octets and computes its number. */
  lemma {:induction false} HighTagExact(s: seq<byte>, first: nat, l: nat, end: nat, acc: nat)
    requires first <= l < end <= |s|
    requires forall k :: l <= k < end - 1 ==> s[k] >= 128
    requires s[end - 1] < 128
    requires acc == Value(128, SevenBits(s[first..l])) % WORD
    ensures HighTag(s, l, acc) == Some((end, Value(128, SevenBits(s[first..end])) % WORD))
    decreases end - l
  {
    hide Value;
    var d := SevenBits(s[first..l + 1]);
    assert d == SevenBits(s[first..l]) + [s[l] % 128];
    ValueSnoc(128, SevenBits(s[first..l]), s[l] % 128);
    ModStep(Value(128, SevenBits(s[first..l])), s[l] % 128);
    if l + 1 < end {
      HighTagExact(s, first, l + 1, end, Value(128, d) % WORD);
    }
  }

  /** Decoding recognises precisely the identifier octet strings: class, form and number of the one
      that starts at `i`. */
  lemma DecTagExact(s: seq<byte>, i: nat, n: nat)
    requires i + n <= |s| && IsIdentifier(s[i..i + n])
    ensures DecTag(s, i) == Some(Tag(n, s[i] / 64, TagNumber(s[i..i + n]), s[i] / 32 % 2 == 1))
  {
    var id := s[i..i + n];
    if id[0] % 32 == 31 {
      assert s[i + 1..i + 1] == [];
      forall k | i + 1 <= k < i + n - 1 ensures s[k] >= 128 { assert s[k] == id[k - i]; }
      HighTagExact(s, i + 1, i + 1, i + n, 0);
      assert id[1..] == s[i + 1..i + n];
    }
  }

  lemma DecTagSound(s: seq<byte>, i: nat)
    requires DecTag(s, i).Some?
    ensures IsIdentifier(s[i..i + DecTag(s, i).value.n])
  {
  }

  lemma FormBit(s: seq<byte>, i: nat)
    requires DecTag(s, i).Some?
    ensures IsConstructed(s[i..i + DecTag(s, i).value.n]) <==> DecTag(s, i).value.cons
  {
    assert s[i..i + DecTag(s, i).value.n][0] == s[i];
  }

  // ---- the encoder writes identifier octets that decode to the same tag

  lemma Base128Shape(v: nat)
    ensures
      var o := Base128(v);
      && (forall k :: 0 <= k < |o| - 1 ==> o[k] >= 128)
      && o[|o| - 1] < 128
      && SevenBits(o) == Digits(128, v)
  {
  }

  lemma EncTagShape(zclass: nat, tag: nat, cons: bool)
    requires zclass < 4 && tag < WORD
    ensures
      var octets := EncTag(zclass, tag, cons);
      && IsIdentifier(octets) && TagNumber(octets) == tag
      && octets[0] / 64 == zclass && (octets[0] / 32 % 2 == 1) == cons
  {
    LeadOctet(zclass, if tag <= 30 then tag else 31, cons);
    if tag > 30 {
      HighIdentifier(EncTag(zclass, tag, cons)[0], tag);
    }
  }

  lemma LeadOctet(zclass: nat, bits: nat, cons: bool)
    requires zclass < 4 && bits < 32
    ensures
      var b := zclass * 64 + (if cons then 32 else 0) + bits;
      b / 64 == zclass && (b / 32 % 2 == 1) == cons && b % 32 == bits
  {
  }

  lemma HighIdentifier(lead: byte, tag: nat)
    requires lead % 32 == 31 && tag < WORD
    ensures IsIdentifier([lead] + Base128(tag)) && TagNumber([lead] + Base128(tag)) == tag
  {
    Base128Shape(tag);
    ValueDigits(128, tag);
    assert ([lead] + Base128(tag))[1..] == Base128(tag);
  }

  /** Tag round trip: class, form and every tag number below 2^32 come back, and exactly the octets
      of the tag are consumed, whatever follows. */
  lemma TagRoundTrip(before: seq<byte>, zclass: nat, tag: nat, cons: bool, rest: seq<byte>)
    requires zclass < 4 && tag < WORD
    ensures
      var octets := EncTag(zclass, tag, cons);
      DecTag(before + octets + rest, |before|) == Some(Tag(|octets|, zclass, tag, cons))
  {
    var octets := EncTag(zclass, tag, cons);
    var s := before + octets + rest;
    EncTagShape(zclass, tag, cons);
    assert s[|before|..|before| + |octets|] == octets;
    assert s[|before|] == octets[0];
    DecTagExact(s, |before|, |octets|);
  }

  // ---- decoding length octets

  /** Missing octets, unrepresentable, or `n` octets read; `len` is -1 for the indefinite form. */
  datatype Length = Incomplete | Bad | Length(n: nat, len: int)

  /** ber_declen at position `i` of `s`. */
  function DecLen(s: seq<byte>, i: nat): (r: Length)
    ensures r.Length? ==> 1 <= r.n && i + r.n <= |s| && -1 <= r.len
  {
    if i >= |s| then Incomplete
    else if s[i] == 0x80 then Length(1, -1)
    else if s[i] < 0x80 then Length(1, s[i])
    else if s[i] == 0xFF then Bad
    else
      var n := s[i] - 128;
      if i + n >= |s| then Incomplete
      else if n > 3 then Bad
      else Length(1 + n, Value(256, s[i + 1..i + 1 + n]))
  }

  lemma DecLenStable(s: seq<byte>, t: seq<byte>, i: nat)
    requires s <= t
    ensures DecLen(s, i) != Incomplete ==> DecLen(t, i) == DecLen(s, i)
  {
    if i < |s| && 0x80 < s[i] < 0xFF && i + (s[i] - 128) < |s| {
      var end := i + 1 + (s[i] - 128);
      assert s[i + 1..end] == t[i + 1..end];
    }
  }

  lemma DecLenExact(s: seq<byte>, i: nat, n: nat, len: nat)
    requires i + n <= |s| && IsLength(s[i..i + n], len)
    ensures DecLen(s, i) == Length(n, len)
  {
    assert s[i..i + n][1..] == s[i + 1..i + n];
  }

  lemma DecLenSound(s: seq<byte>, i: nat)
    requires DecLen(s, i).Length? && DecLen(s, i).len >= 0
    ensures IsLength(s[i..i + DecLen(s, i).n], DecLen(s, i).len)
  {
    var n := DecLen(s, i).n;
    assert s[i..i + n][1..] == s[i + 1..i + n];
  }

  // ---- encoding length octets

  /** Return code and octets of ber_enclen. The count of length octets has to fit seven bits. */
  function EncLen(len: int, lenlen: int, exact: bool): (r: (int, seq<byte>))
    requires lenlen <= 127
  {
    if len < 0 then (0, [0x80])
    else if len <= 127 && (lenlen == 1 || !exact) then (1, [len])
    else if lenlen == 1 then (0, [0x80])
    else
      var d := Digits(256, len);
      if |d| >= lenlen then (-1, [])
      else
        var octets := if exact then Pad(d, lenlen - 1) else d;
        (1 + |octets|, LongForm(octets))
  }

  /** Long form octets: the count with the top bit set, then the octets of the length. */
  function LongForm(d: seq<nat>): (r: seq<byte>)
    requires |d| <= 126 && forall k :: 0 <= k < |d| ==> d[k] < 256
    ensures |r| == 1 + |d| && r[0] == 128 + |d| && r[1..] == d
  {
    var octets: seq<byte> := d;
    [128 + |d|] + octets
  }

  lemma EncLenShape(len: nat, lenlen: int, exact: bool)
    requires lenlen <= 127
    requires EncLen(len, lenlen, exact).0 > 0
    ensures
      var (rc, octets) := EncLen(len, lenlen, exact);
      && rc == |octets|
      && (|octets| <= 4 ==> IsLength(octets, len))
      && (|octets| > 4 ==> octets[0] == 128 + |octets| - 1 < 0xFF)
  {
    hide Digits, Value;
    if len > 127 || (lenlen != 1 && exact) {
      var d := Digits(256, len);
      var p := if exact then Pad(d, lenlen - 1) else d;
      assert Value(256, p) == len by {
        ValueDigits(256, len);
        ValuePad(256, d, lenlen - 1);
      }
      LongFormLength(p, len);
      assert EncLen(len, lenlen, exact) == (1 + |p|, LongForm(p));
    }
  }

  lemma LongFormLength(d: seq<nat>, len: nat)
    requires 1 <= |d| < 127 && forall k :: 0 <= k < |d| ==> d[k] < 256
    requires Value(256, d) == len
    ensures |d| <= 3 ==> IsLength(LongForm(d), len)
  {
    var octets := LongForm(d);
    assert octets[1..] == d;
  }

  /** Length round trip. A positive return code is the number of octets; they decode to the same
      length if and only if they are at most four, and are refused otherwise. */
  lemma LengthRoundTrip(before: seq<byte>, len: nat, lenlen: int, exact: bool, rest: seq<byte>)
    requires len <= INT_MAX && lenlen <= 127
    requires EncLen(len, lenlen, exact).0 > 0
    ensures
      var (rc, octets) := EncLen(len, lenlen, exact);
      && rc == |octets|
      && (|octets| <= 4 ==> IsLength(octets, len) && DecLen(before + octets + rest, |before|) == Length(rc, len))
      && (|octets| > 4 ==> DecLen(before + octets + rest, |before|) == Bad)
  {
    var (rc, octets) := EncLen(len, lenlen, exact);
    var s, i := before + octets + rest, |before|;
    assert s[i..i + |octets|] == octets;
    EncLenShape(len, lenlen, exact);
    if |octets| <= 4 {
      DecLenExact(s, i, |octets|, len);
    } else {
      assert s[i] == octets[0];
    }
  }

  /** Without padding, the definite lengths that survive the round trip are those below 2^24. */
  lemma LengthLimit(len: nat)
    requires len <= INT_MAX
    ensures |EncLen(len, 6, false).1| <= 4 <==> len < 0x100_0000
  {
    var d := Digits(256, len);
    assert Pow(256, 1) == 256 && Pow(256, 2) == 0x1_0000 && Pow(256, 3) == 0x100_0000;
    assert Pow(256, 4) == WORD;
    LengthBound(256, len, 4);
    if len < 0x100_0000 {
      LengthBound(256, len, 3);
    } else {
      ValueDigits(256, len);
      ValueBound(256, d);
    }
  }
}
