/** What ber_decinteger and ber_oidc accept, src/ber_int.c:88-111 and src/ber_oid.c:27-88: contents octets of
    every form behind length octets of every form. */
module BerValues {
  import opened Bytes
  import opened Pieces
  import opened Radix
  import opened BerHeader
  import opened BerStream
  import opened BerInteger
  import opened BerOid

  // ---- integers

  /** The value of contents octets; without any, the sign is taken from the octet that follows. */
  function IntegerValue(c: seq<byte>, next: seq<byte>): int {
    if c != [] then Twos(c) else if next != [] && next[0] >= 128 then -1 else 0
  }

  /** `n` octets at `i` are length octets and at most eight contents octets with the value `v`. */
  predicate IsInteger(s: seq<byte>, i: nat, n: nat, v: int, m: nat) {
    && m <= n && i + n <= |s| && n - m <= 8 && IsLength(s[i..i + m], n - m)
    && v == IntegerValue(s[i + m..i + n], s[i + n..])
  }

  lemma IntegerRead(s: seq<byte>, i: nat, n: nat, v: int, m: nat)
    requires IsInteger(s, i, n, v, m)
    ensures DecInteger(s, i) == Some((n, v))
  {
    hide IsLength, DecLen, Decoded, Twos;
    DecLenExact(s, i, m, n - m);
    ContentsValue(s, i + m, i + n);
  }

  lemma ContentsValue(s: seq<byte>, b: nat, e: nat)
    requires b <= e <= |s| && e - b <= 8
    ensures Decoded(s[b..e], if b < |s| then Some(s[b]) else None) == IntegerValue(s[b..e], s[e..])
  {
    hide Twos, Extend, Signed;
    if b < e {
      DecodedTwos(s[b..e], Some(s[b]));
    }
  }

  /** The decoder reads an INTEGER if and only if there is one. */
  lemma IntegerExactly(s: seq<byte>, i: nat, n: nat, v: int)
    ensures DecInteger(s, i) == Some((n, v)) <==> exists m :: IsInteger(s, i, n, v, m)
  {
    hide IsLength, DecLen, Decoded, Twos;
    if DecInteger(s, i) == Some((n, v)) {
      var m := DecLen(s, i).n;
      DecLenSound(s, i);
      ContentsValue(s, i + m, i + n);
      assert IsInteger(s, i, n, v, m);
    }
    if m :| IsInteger(s, i, n, v, m) {
      IntegerRead(s, i, n, v, m);
    }
  }

  // ---- object identifiers

  /** The octets of a subidentifier: all but the last carry the continuation bit. */
  predicate IsGroup(g: seq<byte>) {
    g != [] && (forall k :: 0 <= k < |g| - 1 ==> g[k] >= 128) && g[|g| - 1] < 128
  }

  /** Its number, in the 32 bits of a C int, where a set sign bit is an error. */
  function Number(g: seq<byte>): nat { Value(128, SevenBits(g)) % WORD }

  predicate AreGroups(gs: seq<seq<byte>>) {
    gs == [] || (IsGroup(gs[0]) && Number(gs[0]) <= INT_MAX && AreGroups(gs[1..]))
  }

  function Joined(gs: seq<seq<byte>>): seq<byte> {
    if gs == [] then [] else gs[0] + Joined(gs[1..])
  }

  function Numbers(gs: seq<seq<byte>>): (ns: seq<int>)
    ensures |ns| == |gs|
  {
    if gs == [] then [] else [Number(gs[0])] + Numbers(gs[1..])
  }

  lemma GroupRead(t: seq<byte>, i: nat, e: nat)
    requires i <= e <= |t| && IsGroup(t[i..e])
    ensures HighTag(t, i, 0) == Some((e, Number(t[i..e])))
  {
    hide Value, HighTag;
    assert t[i..i] == [] && SevenBits([]) == [];
    EmptyValue(128);
    forall k | i <= k < e ensures t[k] == t[i..e][k - i] { }
    HighTagExact(t, i, i, e, 0);
  }

  lemma GroupFound(t: seq<byte>, i: nat)
    requires HighTag(t, i, 0).Some?
    ensures var (e, id) := HighTag(t, i, 0).value; i < e <= |t| && IsGroup(t[i..e]) && id == Number(t[i..e])
  {
    hide HighTag, Number;
    var e := HighTag(t, i, 0).value.0;
    forall k | 0 <= k < e - i ensures t[i..e][k] == t[i + k] { }
    GroupRead(t, i, e);
  }

  lemma NextGroup(t: seq<byte>, i: nat, g: seq<byte>, rest: seq<byte>)
    requires i <= |t| && t[i..] == g + rest
    ensures i + |g| <= |t| && t[i..i + |g|] == g && t[i + |g|..] == rest
  {
    assert t[i..i + |g|] == t[i..][..|g|] && t[i + |g|..] == t[i..][|g|..];
  }

  lemma {:induction false} GroupsRead(t: seq<byte>, i: nat, gs: seq<seq<byte>>, p: seq<int>, max: nat)
    requires p != [] && |p| + |gs| < max && i <= |t| && AreGroups(gs) && t[i..] == Joined(gs)
    ensures Arcs(t, i, p, max) == Some(p + Numbers(gs))
    decreases |gs|
  {
    hide HighTag, Arcs, IsGroup, Number, AreGroups, Joined, Numbers;
    GroupsStep(gs);
    if gs == [] {
      ArcsDone(t, i, p, max);
      assert p + [] == p;
    } else {
      NextGroup(t, i, gs[0], Joined(gs[1..]));
      var e := i + |gs[0]|;
      GroupRead(t, i, e);
      Ahead(t, i);
      ArcsStep(t, i, p, max, e, Number(gs[0]));
      GroupsRead(t, e, gs[1..], p + [Number(gs[0])], max);
      Regroup(p, [Number(gs[0])], Numbers(gs[1..]));
    }
  }

  lemma GroupsStep(gs: seq<seq<byte>>)
    requires AreGroups(gs)
    ensures gs == [] ==> Joined(gs) == [] && Numbers(gs) == []
    ensures gs != [] ==> IsGroup(gs[0]) && Number(gs[0]) <= INT_MAX && AreGroups(gs[1..])
    ensures gs != [] ==> Joined(gs) == gs[0] + Joined(gs[1..]) && Numbers(gs) == [Number(gs[0])] + Numbers(gs[1..])
  {
    hide IsGroup, Number;
  }

  lemma Ahead(t: seq<byte>, i: nat)
    requires HighTag(t, i, 0).Some?
    ensures i < |t|
  {
  }

  lemma ArcsDone(t: seq<byte>, i: nat, p: seq<int>, max: nat)
    requires i <= |t| && t[i..] == []
    ensures Arcs(t, i, p, max) == Some(p)
  {
    assert |t[i..]| == 0;
  }

  lemma {:induction false} GroupsFound(t: seq<byte>, i: nat, p: seq<int>, max: nat) returns (gs: seq<seq<byte>>)
    requires p != [] && |p| < max && i <= |t| && Arcs(t, i, p, max).Some?
    ensures AreGroups(gs) && t[i..] == Joined(gs) && |p| + |gs| < max
    decreases |t| - i
  {
    hide HighTag, IsGroup, Number;
    if i == |t| {
      gs := [];
    } else {
      GroupFound(t, i);
      var e := HighTag(t, i, 0).value.0;
      var rest := GroupsFound(t, e, p + [HighTag(t, i, 0).value.1], max);
      gs := [t[i..e]] + rest;
      assert t[i..] == t[i..e] + t[e..];
    }
  }

  /** `n` octets at `i` are length octets and subidentifiers; the first of them joins the first two arcs, and
      there are fewer arcs than max_oid_size. */
  predicate IsOid(s: seq<byte>, i: nat, n: nat, p: seq<int>, max: nat, m: nat, gs: seq<seq<byte>>) {
    && m <= n && i + n <= |s| && IsLength(s[i..i + m], n - m)
    && gs != [] && AreGroups(gs) && s[i + m..i + n] == Joined(gs)
    && |p| == 1 + |gs| < max && ValidRoot(p) && p[0] * 40 + p[1] == Number(gs[0]) && p[2..] == Numbers(gs)[1..]
  }

  lemma RootIs(p: seq<int>, id: nat)
    requires |p| >= 2 && ValidRoot(p) && p[0] * 40 + p[1] == id
    ensures Split(id) == p[..2]
  {
    SplitExact(p);
  }

  lemma ContentsRead(t: seq<byte>, i: nat, p: seq<int>, max: nat, gs: seq<seq<byte>>)
    requires i <= |t| && gs != [] && AreGroups(gs) && t[i..] == Joined(gs)
    requires |p| == 1 + |gs| < max && ValidRoot(p) && p[0] * 40 + p[1] == Number(gs[0]) && p[2..] == Numbers(gs)[1..]
    ensures Arcs(t, i, [], max) == Some(p)
  {
    hide HighTag, Arcs, IsGroup, Number, Split, ValidRoot;
    NextGroup(t, i, gs[0], Joined(gs[1..]));
    var e := i + |gs[0]|;
    GroupRead(t, i, e);
    Ahead(t, i);
    RootIs(p, Number(gs[0]));
    ArcsStep(t, i, [], max, e, Number(gs[0]));
    GroupsRead(t, e, gs[1..], p[..2], max);
    assert Numbers(gs)[1..] == Numbers(gs[1..]);
    assert p == p[..2] + p[2..];
  }

  lemma ContentsFound(t: seq<byte>, i: nat, max: nat) returns (gs: seq<seq<byte>>)
    requires i < |t| && Arcs(t, i, [], max).Some?
    ensures gs != [] && AreGroups(gs) && t[i..] == Joined(gs) && 1 + |gs| < max
  {
    hide HighTag, IsGroup, Number, Split;
    GroupFound(t, i);
    var (e, id) := HighTag(t, i, 0).value;
    var rest := GroupsFound(t, e, Split(id), max);
    gs := [t[i..e]] + rest;
    assert t[i..] == t[i..e] + t[e..];
  }

  lemma OidRead(s: seq<byte>, i: nat, n: nat, p: seq<int>, max: nat, m: nat, gs: seq<seq<byte>>)
    requires IsOid(s, i, n, p, max, m, gs)
    ensures DecOid(s, i, max) == Some((n, p))
  {
    hide IsLength, DecLen, Arcs, AreGroups, Joined, Numbers, ValidRoot, Number;
    DecLenExact(s, i, m, n - m);
    var t := s[..i + n];
    assert t[i + m..] == s[i + m..i + n];
    ContentsRead(t, i + m, p, max, gs);
  }

  /** The arcs that subidentifiers stand for. */
  lemma ArcsOf(gs: seq<seq<byte>>) returns (p: seq<int>)
    requires gs != [] && AreGroups(gs)
    ensures |p| == 1 + |gs| && ValidRoot(p) && p[0] * 40 + p[1] == Number(gs[0]) && p[2..] == Numbers(gs)[1..]
  {
    hide Number, IsGroup, Numbers;
    var root := Split(Number(gs[0]));
    p := root + Numbers(gs)[1..];
    assert p[2..] == Numbers(gs)[1..] && p[0] == root[0] && p[1] == root[1];
  }

  /** The decoder reads an OBJECT IDENTIFIER if and only if there is one. */
  lemma OidExactly(s: seq<byte>, i: nat, n: nat, p: seq<int>, max: nat)
    ensures DecOid(s, i, max) == Some((n, p)) <==> exists m, gs :: IsOid(s, i, n, p, max, m, gs)
  {
    hide IsLength, DecLen, Arcs, AreGroups, Joined, Numbers, ValidRoot, Number;
    if DecOid(s, i, max) == Some((n, p)) {
      var m := DecLen(s, i).n;
      DecLenSound(s, i);
      var t := s[..i + n];
      assert t[i + m..] == s[i + m..i + n];
      if m == n { NoArcs(t, i + m, max); }
      var gs := ContentsFound(t, i + m, max);
      var q := ArcsOf(gs);
      assert IsOid(s, i, n, q, max, m, gs);
      OidRead(s, i, n, q, max, m, gs);
    }
    if m, gs :| IsOid(s, i, n, p, max, m, gs) {
      OidRead(s, i, n, p, max, m, gs);
    }
  }
}
