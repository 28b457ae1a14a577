/** The loops of the BER tag and length codecs, src/ber_tag.c:123-188 and src/ber_len.c:30-126: digits
    are collected in a small array, lowest first, and written from its end. */
module BerStream {
  import opened Bytes
  import opened Odr
  import opened Radix
  import opened BerHeader

  // ---- collecting digits

  /** The digits in octs[..n], lowest first, as a number is written. */
  ghost function HighestFirst(octs: seq<nat>): seq<nat> {
    seq(|octs|, k requires 0 <= k < |octs| => octs[|octs| - 1 - k])
  }

  lemma HighestFirstSnoc(octs: seq<nat>, x: nat)
    ensures HighestFirst(octs + [x]) == [x] + HighestFirst(octs)
  {
  }

  /** Digits are split off a number, lowest first, into an array with room for all of them; a zero has
      one digit. */
  method CollectDigits(octs: array<nat>, base: nat, v: nat) returns (n: nat)
    requires 2 <= base && |Digits(base, v)| <= octs.Length
    modifies octs
    ensures n == |Digits(base, v)| && HighestFirst(octs[..n]) == Digits(base, v)
  {
    hide Digits;
    LastDigit(base, v);
    octs[0] := v % base;
    n := 1;
    var rest := v / base;
    assert HighestFirst(octs[..n]) == [v % base];
    while rest != 0
      invariant 1 <= n <= |Digits(base, v)| <= octs.Length && 0 <= rest
      invariant Digits(base, v) == (if rest == 0 then [] else Digits(base, rest)) + HighestFirst(octs[..n])
      decreases rest
    {
      LastDigit(base, rest);
      ghost var before := octs[..n];
      octs[n] := rest % base;
      assert octs[..n + 1] == before + [rest % base];
      HighestFirstSnoc(before, rest % base);
      n := n + 1;
      rest := rest / base;
    }
  }

  lemma LastDigit(base: nat, v: nat)
    requires 2 <= base
    ensures Digits(base, v) == (if v / base == 0 then [] else Digits(base, v / base)) + [v % base]
    ensures v > 0 ==> v / base < v
  {
    if v < base {
      SmallQuotient(v, base);
    } else {
      BigQuotient(v, base);
    }
  }

  lemma SmallQuotient(v: nat, base: nat)
    requires v < base
    ensures v / base == 0 && v % base == v
  {
  }

  lemma BigQuotient(v: nat, base: nat)
    requires 2 <= base <= v
    ensures 0 < v / base < v
  {
    DivMod(v, base);
  }

  // ---- encoders

  /** The digits of a number are written highest first, with the continuation bit on all but the last. */
  method PutBase128(o: Stream, octs: array<nat>, v: nat)
    requires o.Valid() && o.pos == |o.buf| && |Digits(128, v)| <= octs.Length
    modifies o, octs
    ensures o.Valid() && o.pos == |o.buf| && o.buf == old(o.buf) + Base128(v)
  {
    hide Digits;
    var n := CollectDigits(octs, 128, v);
    ghost var d := octs[..n];
    while n > 0
      invariant 0 <= n <= |d| == |Base128(v)| && octs[..|d|] == d && |d| <= octs.Length
      invariant o.Valid() && o.pos == |o.buf|
      invariant o.buf == old(o.buf) + Base128(v)[..|d| - n]
      invariant HighestFirst(d) == Digits(128, v)
    {
      n := n - 1;
      ghost var k := |d| - 1 - n;
      assert d[n] == HighestFirst(d)[k] == Digits(128, v)[k];
      assert Base128(v)[..k + 1] == Base128(v)[..k] + [Base128(v)[k]];
      assert octs[n] == d[n];
      o.Putc(octs[n] + if n > 0 then 128 else 0);
    }
    assert Base128(v)[..|d|] == Base128(v);
  }

  /** ber_enctag. Its array has room for four octets, so the tag has at most 28 bits. The number of
      octets is returned for a low tag only. */
  method BerEnctag(o: Stream, zclass: nat, tag: nat, cons: bool) returns (rc: int)
    requires o.Valid() && o.pos == |o.buf| && zclass < 4 && tag < 0x1000_0000
    modifies o
    ensures o.Valid() && o.pos == |o.buf| && o.buf == old(o.buf) + EncTag(zclass, tag, cons)
    ensures rc == if tag <= 30 then 1 else 0
  {
    hide Digits, Base128;
    var b := zclass * 64 + if cons then 32 else 0;
    if tag <= 30 {
      o.Putc(b + tag);
      return 1;
    }
    o.Putc(b + 31);
    var octs := new nat[4];
    assert |Digits(128, tag)| <= 4 by {
      assert Pow(128, 1) == 128 && Pow(128, 2) == 0x4000 && Pow(128, 3) == 0x20_0000 && Pow(128, 4) == 0x1000_0000;
      LengthBound(128, tag, 4);
    }
    PutBase128(o, octs, tag);
    rc := 0;
  }

  function Zeros(n: nat): (z: seq<byte>)
    ensures |z| == n && forall k :: 0 <= k < n ==> z[k] == 0
  {
    seq(n, _ => 0)
  }

  /** Zero octets in front of `n` length octets, up to the exact width. */
  method PutPadding(o: Stream, n: nat, lenlen: nat)
    requires o.Valid() && o.pos == |o.buf| && n < lenlen
    modifies o
    ensures o.Valid() && o.pos == |o.buf| && o.buf == old(o.buf) + Zeros(lenlen - 1 - n)
  {
    var width := lenlen - 1;
    while n < width
      invariant n <= width < lenlen && o.Valid() && o.pos == |o.buf|
      invariant o.buf == old(o.buf) + Zeros(lenlen - 1 - width)
    {
      assert Zeros(lenlen - width) == Zeros(lenlen - 1 - width) + [0];
      o.Putc(0);
      width := width - 1;
    }
  }

  /** The collected octets are written highest first. */
  method PutOctets(o: Stream, octs: array<nat>, n: nat, ghost d: seq<byte>)
    requires o.Valid() && o.pos == |o.buf| && n <= octs.Length && HighestFirst(octs[..n]) == d
    modifies o
    ensures o.Valid() && o.pos == |o.buf| && o.buf == old(o.buf) + d
  {
    var m := n;
    while m > 0
      invariant 0 <= m <= n && o.Valid() && o.pos == |o.buf| && o.buf == old(o.buf) + d[..n - m]
    {
      m := m - 1;
      assert octs[m] == octs[..n][m] == d[n - 1 - m];
      assert d[..n - m] == d[..n - 1 - m] + [d[n - 1 - m]];
      o.Putc(octs[m]);
    }
    assert d[..n] == d;
  }

  /** The definite long form of ber_enclen: the octet count is written last, over a dummy. */
  method LongLength(o: Stream, len: nat, lenlen: int, exact: bool) returns (rc: int)
    requires o.Valid() && o.pos == |o.buf| && len <= INT_MAX && lenlen <= 127
    requires lenlen != 1 && (len > 127 || exact)
    modifies o
    ensures o.Valid() && o.pos == |o.buf|
    ensures rc == EncLen(len, lenlen, exact).0 && o.buf == old(o.buf) + EncLen(len, lenlen, exact).1
  {
    hide Digits, LongForm, Overwrite, HighestFirst, EncLen;
    var octs := new nat[4];
    FourOctets(len);
    var n := CollectDigits(octs, 256, len);
    if n >= lenlen {
      TooLong(len, lenlen, exact);
      assert o.buf + [] == o.buf;
      return -1;
    }
    ghost var d, octets := LongOctets(len, lenlen, exact);
    var lenpos := o.pos;
    ghost var before := o.buf;
    AtEnd(before, [0]);
    o.Putc(0);
    if exact {
      PutPadding(o, n, lenlen);
    } else {
      assert before + [0] + Zeros(0) == before + [0];
    }
    ghost var padded := o.buf;
    PutOctets(o, octs, n, d);
    Joined(before, padded, d, octets, if exact then lenlen - 1 - n else 0);
    PatchCount(o, lenpos, before, octets);
    rc := o.pos - lenpos;
  }

  lemma Joined(before: seq<byte>, padded: seq<byte>, d: seq<byte>, octets: seq<byte>, zeros: nat)
    requires padded == before + [0] + Zeros(zeros) && octets == Zeros(zeros) + d
    ensures padded + d == before + [0] + octets
  {
  }

  /** The octet count is written over the dummy in front of the octets. */
  method PatchCount(o: Stream, lenpos: nat, ghost before: seq<byte>, ghost octets: seq<byte>)
    requires o.Valid() && o.pos == |o.buf| && o.buf == before + [0] + octets && lenpos == |before| && |octets| <= 126
    modifies o
    ensures o.Valid() && o.pos == |o.buf| && o.buf == before + LongForm(octets)
  {
    hide LongForm, Overwrite;
    var end := o.pos;
    o.Seek(lenpos);
    Patched(before, octets);
    o.Putc(end - lenpos - 1 + 128);
    o.Seek(|o.buf|);
  }

  lemma TooLong(len: nat, lenlen: int, exact: bool)
    requires lenlen <= 127 && lenlen != 1 && (len > 127 || exact) && |Digits(256, len)| >= lenlen
    ensures EncLen(len, lenlen, exact) == (-1, [])
  {
    hide Digits, Pad;
  }

  /** The digits of a length that fits, and the octets written for them. */
  lemma LongOctets(len: nat, lenlen: int, exact: bool) returns (d: seq<byte>, octets: seq<byte>)
    requires len <= INT_MAX && lenlen <= 127 && lenlen != 1 && (len > 127 || exact) && |Digits(256, len)| < lenlen
    ensures d == Digits(256, len) && octets == Zeros(if exact then lenlen - 1 - |d| else 0) + d
    ensures |octets| <= 126 && EncLen(len, lenlen, exact) == (1 + |octets|, LongForm(octets))
  {
    hide Digits, Pad;
    d := Digits(256, len);
    octets := Zeros(if exact then lenlen - 1 - |d| else 0) + d;
    assert octets == if exact then Pad(d, lenlen - 1) else d;
  }

  lemma Patched(before: seq<byte>, octets: seq<byte>)
    requires |octets| <= 126
    ensures Overwrite(before + [0] + octets, |before|, [128 + |octets|]) == before + LongForm(octets)
  {
  }

  lemma FourOctets(len: nat)
    requires len <= INT_MAX
    ensures |Digits(256, len)| <= 4
  {
    assert Pow(256, 1) == 256 && Pow(256, 2) == 0x1_0000 && Pow(256, 3) == 0x100_0000 && Pow(256, 4) == WORD;
    LengthBound(256, len, 4);
  }

  /** ber_enclen. At the end of the stream, or, to patch one octet, anywhere with lenlen = 1. */
  method BerEnclen(o: Stream, len: int, lenlen: int, exact: bool) returns (rc: int)
    requires o.Valid() && len <= INT_MAX && lenlen <= 127 && (o.pos == |o.buf| || lenlen == 1)
    modifies o
    ensures o.Valid()
    ensures rc == EncLen(len, lenlen, exact).0
    ensures o.buf == Overwrite(old(o.buf), old(o.pos), EncLen(len, lenlen, exact).1)
    ensures o.pos == old(o.pos) + |EncLen(len, lenlen, exact).1|
  {
    hide Digits, Pad, LongForm, Overwrite;
    if len < 0 {
      o.Putc(0x80);
      return 0;
    }
    if len <= 127 && (lenlen == 1 || !exact) {
      o.Putc(len);
      return 1;
    }
    if lenlen == 1 {
      o.Putc(0x80);
      return 0;
    }
    AtEnd(o.buf, EncLen(len, lenlen, exact).1);
    rc := LongLength(o, len, lenlen, exact);
  }

  lemma AtEnd(buf: seq<byte>, octets: seq<byte>)
    ensures Overwrite(buf, |buf|, octets) == buf + octets
  {
  }

  // ---- decoders

  /** ber_dectag. */
  method BerDectag(s: seq<byte>, i: nat) returns (r: Option<Tag>)
    ensures r == DecTag(s, i)
  {
    if i >= |s| {
      return None;
    }
    var zclass, cons := s[i] / 64, s[i] / 32 % 2 == 1;
    var tag: nat := s[i] % 32;
    if tag <= 30 {
      return Some(Tag(1, zclass, tag, cons));
    }
    tag := 0;
    var l := i + 1;
    while true
      invariant i + 1 <= l && HighTag(s, l, tag) == HighTag(s, i + 1, 0)
      decreases |s| - l
    {
      if l >= |s| {
        return None;
      }
      tag := (tag * 128 + s[l] % 128) % WORD;
      l := l + 1;
      if s[l - 1] < 128 {
        break;
      }
    }
    r := Some(Tag(l - i, zclass, tag, cons));
  }

  /** ber_declen. */
  method BerDeclen(s: seq<byte>, i: nat) returns (r: Length)
    ensures r == DecLen(s, i)
  {
    hide Value;
    if i >= |s| {
      return Incomplete;
    }
    if s[i] == 0x80 {
      return Length(1, -1);
    }
    if s[i] < 0x80 {
      return Length(1, s[i]);
    }
    if s[i] == 0xFF {
      return Bad;
    }
    var n := s[i] - 128;
    if i + n >= |s| {
      return Incomplete;
    }
    if n > 3 {
      return Bad;
    }
    var len: int, b := 0, i + 1;
    assert s[i + 1..b] == [];
    EmptyValue(256);
    while b < i + 1 + n
      invariant i + 1 <= b <= i + 1 + n <= |s| && len == Value(256, s[i + 1..b])
    {
      assert s[i + 1..b + 1] == s[i + 1..b] + [s[b]];
      ValueSnoc(256, s[i + 1..b], s[b]);
      len := len * 256 + s[b];
      b := b + 1;
    }
    r := Length(b - i, len);
  }

  lemma EmptyValue(base: nat)
    ensures Value(base, []) == 0
  {
  }
}
