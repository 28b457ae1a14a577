/** BER INTEGER, src/ber_int.c: two's complement octets behind a one-octet length. */
module BerInteger {
  import opened Bytes
  import opened Odr
  import opened Radix
  import opened BerHeader
  import opened BerStream

  const TWO_63 := 0x8000_0000_0000_0000
  const TWO_64 := 0x1_0000_0000_0000_0000

  predicate IsInt64(v: int) { -TWO_63 <= v < TWO_63 }

  /** Conversion to and from unsigned long long. */
  function Unsigned(v: int): nat
    requires IsInt64(v)
  {
    if v < 0 then v + TWO_64 else v
  }

  function Signed(u: nat): int
    requires u < TWO_64
  {
    if u >= TWO_63 then u - TWO_64 else u
  }

  // ---- two's complement, section 8.3 of X.690

  /** The number that contents octets stand for. */
  function Twos(c: seq<byte>): int
    requires c != []
  {
    Value(256, c) - if c[0] >= 128 then Pow(256, |c|) else 0
  }

  /** The first nine bits are all equal. */
  predicate Redundant(c: seq<byte>) {
    |c| > 1 && ((c[0] == 0 && c[1] < 128) || (c[0] == 0xFF && c[1] >= 128))
  }

  /** The shortest form: section 8.3.2 forbids nine equal leading bits. */
  predicate Shortest(c: seq<byte>) { c != [] && !Redundant(c) }

  // ---- codec

  /** The lowest `n` octets of a number. */
  function Fixed(u: nat, n: nat): (t: seq<byte>)
    ensures |t| == n
    decreases n
  {
    if n == 0 then [] else Fixed(u / 256, n - 1) + [u % 256]
  }

  function Strip(t: seq<byte>): (c: seq<byte>)
    ensures |c| <= |t| && (t != [] ==> c != [])
  {
    if Redundant(t) then Strip(t[1..]) else t
  }

  /** The contents octets that ber_encinteger writes. */
  function Content(v: int): (c: seq<byte>)
    requires IsInt64(v)
    ensures 1 <= |c| <= 8
  {
    Strip(Fixed(Unsigned(v), 8))
  }

  function EncInteger(v: int): seq<byte>
    requires IsInt64(v)
  {
    [|Content(v)|] + Content(v)
  }

  function Fill(c: seq<byte>): byte { if c != [] && c[0] >= 128 then 0xFF else 0 }

  /** Sign extension to `n` octets. */
  function Extend(c: seq<byte>, n: nat): (e: seq<byte>)
    ensures |e| == if |c| >= n then |c| else n
    decreases n - |c|
  {
    if |c| >= n then c else Extend([Fill(c)] + c, n)
  }

  /** The value that ber_decinteger computes. Without contents octets it looks at the octet that
      follows; here it is `peek`. */
  function Decoded(c: seq<byte>, peek: Option<byte>): (v: int)
    requires |c| <= 8
  {
    if c == [] then (if peek.Some? && peek.value >= 128 then -1 else 0)
    else ValueFits(Extend(c, 8)); Signed(Value(256, Extend(c, 8)))
  }

  /** ber_decinteger: the octets read and the value. */
  function DecInteger(s: seq<byte>, i: nat): (r: Option<(nat, int)>) {
    var l := DecLen(s, i);
    if !l.Length? || l.len < 0 || i + l.n + l.len > |s| || l.len > 8 then None
    else
      var b := i + l.n;
      Some((l.n + l.len, Decoded(s[b..b + l.len], if b < |s| then Some(s[b]) else None)))
  }

  lemma ValueFits(c: seq<byte>)
    ensures |c| <= 8 ==> Value(256, c) < TWO_64
  {
    hide Value;
    if |c| <= 8 {
      ValueBound(256, c);
      Powers();
      PowMono(|c|, 8);
    }
  }

  lemma Powers()
    ensures Pow(256, 0) == 1 && Pow(256, 1) == 256 && Pow(256, 7) * 128 == TWO_63 && Pow(256, 8) == TWO_64
  {
    assert Pow(256, 2) == 0x1_0000 && Pow(256, 3) == 0x100_0000 && Pow(256, 4) == 0x1_0000_0000;
    assert Pow(256, 5) == 0x100_0000_0000 && Pow(256, 6) == 0x1_0000_0000_0000;
    assert Pow(256, 7) == 0x100_0000_0000_0000;
  }

  lemma {:induction false} PowMono(a: nat, b: nat)
    requires a <= b
    ensures 1 <= Pow(256, a) <= Pow(256, b)
    decreases b
  {
    if a < b {
      PowMono(a, b - 1);
    } else if a > 0 {
      PowMono(a - 1, a - 1);
    }
  }

  // ---- sign extension keeps the number

  /** The leading octet's share of the value. */
  lemma ValueCons(x: byte, c: seq<byte>)
    ensures Value(256, [x] + c) == x * Pow(256, |c|) + Value(256, c)
  {
    hide Value;
    ValueAppend(256, [x], c);
    ValueSingle(256, x);
  }

  lemma ExtendOne(c: seq<byte>)
    requires c != []
    ensures Twos([Fill(c)] + c) == Twos(c)
  {
    hide Value;
    ValueCons(Fill(c), c);
    assert Pow(256, |c| + 1) == Pow(256, |c|) * 256;
  }

  lemma {:induction false} ExtendTwos(c: seq<byte>, n: nat)
    requires c != []
    ensures Twos(Extend(c, n)) == Twos(c)
    decreases n - |c|
  {
    hide Twos;
    if |c| < n {
      ExtendOne(c);
      ExtendTwos([Fill(c)] + c, n);
    }
  }

  lemma {:induction false} StripTwos(t: seq<byte>)
    requires t != []
    ensures Twos(Strip(t)) == Twos(t) && Shortest(Strip(t))
  {
    hide Twos;
    if Redundant(t) {
      StripTwos(t[1..]);
      assert t == [Fill(t[1..])] + t[1..];
      ExtendOne(t[1..]);
    }
  }

  lemma {:induction false} StripExtend(c: seq<byte>, n: nat)
    requires c != []
    ensures Strip(Extend(c, n)) == Strip(c)
    decreases n - |c|
  {
    if |c| < n {
      var e := [Fill(c)] + c;
      assert e[1..] == c && Redundant(e);
      StripExtend(e, n);
    }
  }

  /** Octets of the same number and length are the same. */
  lemma TwosInjective(c: seq<byte>, d: seq<byte>)
    requires c != [] && |c| == |d| && Twos(c) == Twos(d)
    ensures c == d
  {
    hide Value, Pow;
    ValueBound(256, c);
    ValueBound(256, d);
    ValueInjectiveBytes(c, d);
  }

  lemma ValueInjectiveBytes(c: seq<byte>, d: seq<byte>)
    requires |c| == |d|
    ensures Value(256, c) == Value(256, d) ==> c == d
  {
    if Value(256, c) == Value(256, d) {
      ValueInjective(256, c, d);
    }
  }

  // ---- eight octets

  lemma {:induction false} FixedValue(u: nat, n: nat)
    requires u < Pow(256, n)
    ensures Value(256, Fixed(u, n)) == u
    decreases n
  {
    hide Value;
    if n == 0 {
      EmptyValue(256);
    } else {
      DivBelow(u, Pow(256, n - 1), 256);
      FixedValue(u / 256, n - 1);
      ValueSnoc(256, Fixed(u / 256, n - 1), u % 256);
    }
  }

  /** With eight octets, the first bit is the sign of the 64-bit number. */
  lemma EightOctets(t: seq<byte>)
    requires |t| == 8
    ensures Value(256, t) < TWO_64 && Twos(t) == Signed(Value(256, t))
  {
    hide Value, Pow;
    ValueFits(t);
    Powers();
    assert t == [t[0]] + t[1..];
    ValueCons(t[0], t[1..]);
    ValueBound(256, t[1..]);
  }

  lemma FixedTwos(v: int)
    requires IsInt64(v)
    ensures Twos(Fixed(Unsigned(v), 8)) == v
  {
    hide Value, Pow, Fixed, Twos;
    Powers();
    FixedValue(Unsigned(v), 8);
    EightOctets(Fixed(Unsigned(v), 8));
  }

  // ---- main results

  /** Every 64-bit number is written in the shortest form, and no other contents octets of at most
      eight octets are both shortest and stand for it; all others are longer. */
  lemma ShortestUnique(v: int, c: seq<byte>)
    requires IsInt64(v) && 1 <= |c| <= 8
    ensures Shortest(Content(v)) && Twos(Content(v)) == v
    ensures Twos(c) == v ==> |Content(v)| <= |c| && (Shortest(c) <==> c == Content(v))
  {
    hide Twos, Fixed, Extend;
    FixedTwos(v);
    StripTwos(Fixed(Unsigned(v), 8));
    if Twos(c) == v {
      ExtendTwos(c, 8);
      TwosInjective(Extend(c, 8), Fixed(Unsigned(v), 8));
      StripExtend(c, 8);
    }
  }

  /** Contents octets of one to eight octets decode to the number they stand for. */
  lemma DecodedTwos(c: seq<byte>, peek: Option<byte>)
    requires 1 <= |c| <= 8
    ensures Decoded(c, peek) == Twos(c)
  {
    hide Value, Twos, Extend;
    ExtendTwos(c, 8);
    EightOctets(Extend(c, 8));
  }

  /** Round trip: every 64-bit number comes back, and exactly the octets written are read, whatever
      follows. */
  lemma IntegerRoundTrip(before: seq<byte>, v: int, rest: seq<byte>)
    requires IsInt64(v)
    ensures DecInteger(before + EncInteger(v) + rest, |before|) == Some((|EncInteger(v)|, v))
  {
    hide Twos, Content, Decoded;
    var c := Content(v);
    var s, i := before + EncInteger(v) + rest, |before|;
    assert s[i] == |c| && s[i + 1..i + 1 + |c|] == c;
    ShortestUnique(v, c);
    DecodedTwos(c, if i + 1 < |s| then Some(s[i + 1]) else None);
  }

  // ---- the loops

  /** ber_encinteger: all eight octets, then those that are not redundant. */
  method BerEncinteger(o: Stream, val: int) returns (rc: int)
    requires o.Valid() && o.pos == |o.buf| && IsInt64(val)
    modifies o
    ensures o.Valid() && o.pos == |o.buf| && rc == 0 && o.buf == old(o.buf) + EncInteger(val)
  {
    hide Strip, Fixed, Overwrite, EncLen;
    var tmp := new byte[8](_ => 0);
    FillOctets(tmp, Unsigned(val));
    var i := FirstNeeded(tmp);
    var len := 8 - i;
    OneOctetLength(o.buf, len);
    var n := BerEnclen(o, len, 1, true);
    o.Write(tmp[i..]);
    assert old(o.buf) + [len] + Content(val) == old(o.buf) + EncInteger(val);
    rc := 0;
  }

  lemma OneOctetLength(buf: seq<byte>, len: byte)
    requires len <= 127
    ensures EncLen(len, 1, true) == (1, [len]) && Overwrite(buf, |buf|, [len]) == buf + [len]
  {
  }

  /** The first octet that is not redundant. */
  method FirstNeeded(tmp: array<byte>) returns (i: nat)
    requires tmp.Length == 8
    ensures i <= 7 && tmp[i..] == Strip(tmp[..])
  {
    i := 0;
    while i < 7
      invariant 0 <= i <= 7 && Strip(tmp[i..]) == Strip(tmp[..])
    {
      assert tmp[i..][1..] == tmp[i + 1..] && tmp[i..][1] == tmp[i + 1];
      if !((tmp[i] == 0 && tmp[i + 1] < 128) || (tmp[i] == 0xFF && tmp[i + 1] >= 128)) {
        break;
      }
      i := i + 1;
    }
    assert Strip(tmp[i..]) == tmp[i..];
  }

  method FillOctets(tmp: array<byte>, u: nat)
    requires tmp.Length == 8
    modifies tmp
    ensures tmp[..] == Fixed(u, 8)
  {
    var i, uval := 8, u;
    assert Fixed(uval, i) + tmp[i..] == Fixed(u, 8);
    while i > 0
      invariant 0 <= i <= 8 && Fixed(uval, i) + tmp[i..] == Fixed(u, 8)
    {
      ghost var after := tmp[i..];
      i := i - 1;
      tmp[i] := uval % 256;
      assert tmp[i..] == [uval % 256] + after;
      uval := uval / 256;
    }
    assert tmp[0..] == tmp[..] && Fixed(uval, 0) == [];
  }

  function Copies(b: byte, n: nat): (s: seq<byte>)
    ensures |s| == n
  {
    seq(n, _ => b)
  }

  lemma {:induction false} ExtendIs(c: seq<byte>, n: nat)
    requires c != [] && |c| <= n
    ensures Extend(c, n) == Copies(Fill(c), n - |c|) + c
    decreases n - |c|
  {
    if |c| < n {
      ExtendIs([Fill(c)] + c, n);
      assert Copies(Fill(c), n - |c| - 1) + ([Fill(c)] + c) == Copies(Fill(c), n - |c|) + c;
    }
  }

  /** uval = (uval << 8) + b, with no more than eight octets. */
  lemma ShiftIn(octets: seq<byte>, b: byte)
    requires |octets| < 8
    ensures Value(256, octets) * 256 + b == Value(256, octets + [b]) < TWO_64
  {
    hide Value;
    ValueSnoc(256, octets, b);
    ValueFits(octets + [b]);
  }

  lemma {:induction false} ZerosIgnored(c: seq<byte>, n: nat)
    ensures Value(256, Copies(0, n) + c) == Value(256, c)
  {
    hide Value;
    if n == 0 {
      assert Copies(0, 0) + c == c;
    } else {
      ZerosIgnored(c, n - 1);
      assert Copies(0, n) + c == [0] + (Copies(0, n - 1) + c);
      ValueLeadingZero(256, Copies(0, n - 1) + c);
    }
  }

  /** The accumulator of ber_decinteger over contents octets `c`. */
  method Accumulate(c: seq<byte>, fill: bool) returns (uval: nat)
    requires |c| <= 8
    ensures uval == Value(256, (if fill then Copies(0xFF, 8 - |c|) else []) + c) < TWO_64
  {
    hide Value;
    uval := 0;
    EmptyValue(256);
    ghost var octets: seq<byte> := [];
    if fill {
      for i := 0 to 8 - |c|
        invariant octets == Copies(0xFF, i) && uval == Value(256, octets)
      {
        ShiftIn(octets, 0xFF);
        uval := (uval * 256 + 0xFF) % TWO_64;
        octets := octets + [0xFF];
      }
    }
    ghost var front := octets;
    assert front + c[..0] == front;
    for i := 0 to |c|
      invariant octets == front + c[..i] && uval == Value(256, octets)
    {
      ShiftIn(octets, c[i]);
      uval := (uval * 256 + c[i]) % TWO_64;
      octets := octets + [c[i]];
      assert front + c[..i] + [c[i]] == front + c[..i + 1];
    }
    assert front + c[..|c|] == front + c;
    ValueFits(front + c);
  }

  /** ber_decinteger. */
  method BerDecinteger(s: seq<byte>, i: nat) returns (r: Option<(nat, int)>)
    ensures r == DecInteger(s, i)
  {
    hide Value, DecLen, Extend;
    var l := BerDeclen(s, i);
    if !l.Length? || i + l.n + l.len > |s| || l.len < 0 {
      return None;
    }
    if l.len > 8 {
      return None;
    }
    var b := i + l.n;
    var c := s[b..b + l.len];
    var fill := b < |s| && s[b] >= 128;
    var uval := Accumulate(c, fill);
    AccumulatorIs(c, fill);
    r := Some((l.n + l.len, Signed(uval)));
  }

  lemma AccumulatorIs(c: seq<byte>, fill: bool)
    requires |c| <= 8 && (c != [] ==> (fill <==> c[0] >= 128))
    ensures var u := Value(256, (if fill then Copies(0xFF, 8 - |c|) else []) + c);
            && u < TWO_64
            && (c == [] ==> Signed(u) == if fill then -1 else 0)
            && (c != [] ==> u == Value(256, Extend(c, 8)))
  {
    hide Value, Pow, Extend, Signed, Copies;
    ValueFits((if fill then Copies(0xFF, 8 - |c|) else []) + c);
    if c != [] {
      ExtendIs(c, 8);
      ZerosIgnored(c, 8 - |c|);
      assert [] + c == c;
    } else if fill {
      assert Copies(0xFF, 8) + [] == Copies(0xFF, 8);
      AllOnes();
    } else {
      EmptyValue(256);
      assert Signed(0) == 0 by { SignedZero(); }
    }
  }

  lemma SignedZero()
    ensures Signed(0) == 0
  {
  }

  lemma AllOnes()
    ensures Value(256, Copies(0xFF, 8)) < TWO_64 && Signed(Value(256, Copies(0xFF, 8))) == -1
  {
    hide Value, Pow, Extend, Signed, Copies, Twos;
    ExtendIs([0xFF], 8);
    OneMore(0xFF, 7);
    ExtendTwos([0xFF], 8);
    EightOctets(Copies(0xFF, 8));
    MinusOne();
  }

  lemma OneMore(b: byte, n: nat)
    ensures Copies(b, n) + [b] == Copies(b, n + 1)
  {
  }

  lemma MinusOne()
    ensures Twos([0xFF]) == -1
  {
    ValueSingle(256, 0xFF);
    Powers();
  }
}
