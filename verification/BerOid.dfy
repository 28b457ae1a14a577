/** BER OBJECT IDENTIFIER, src/ber_oid.c: subidentifiers in base 128, the first of which joins the first
    two arcs, behind a one-octet length that is patched in at the end. */
module BerOid {
  import opened Bytes
  import opened Pieces
  import opened Odr
  import opened Radix
  import opened BerHeader
  import opened BerStream

  /** What the encoder's int arithmetic holds: no arc behind the first two is negative, and no
      subidentifier exceeds INT_MAX. */
  predicate IntArcs(p: seq<int>) {
    && (forall k :: 2 <= k < |p| ==> 0 <= p[k] <= INT_MAX)
    && (|p| >= 2 ==> p[0] * 40 + p[1] <= INT_MAX)
  }

  /** Arcs that section 8.19.4 of X.690 allows in front. */
  predicate ValidRoot(p: seq<int>) {
    |p| >= 2 && 0 <= p[0] <= 2 && 0 <= p[1] && (p[0] < 2 ==> p[1] < 40)
  }

  // ---- encoding

  function SubIds(p: seq<int>): (ids: seq<nat>)
    requires |p| >= 2 && p[0] >= 0 && p[1] >= 0 && IntArcs(p)
    ensures |ids| == |p| - 1 && forall k :: 0 <= k < |ids| ==> ids[k] <= INT_MAX
  {
    [p[0] * 40 + p[1]] + p[2..]
  }

  function OidContent(ids: seq<nat>): seq<byte> {
    if ids == [] then [] else Base128(ids[0]) + OidContent(ids[1..])
  }

  /** The octets that ber_oidc writes; None for an error. */
  function EncOid(p: seq<int>): Option<seq<byte>>
    requires IntArcs(p)
  {
    if |p| < 2 || p[0] < 0 || p[1] < 0 then None
    else
      var content := OidContent(SubIds(p));
      if |content| > 127 then None else Some([|content|] + content)
  }

  // ---- decoding

  /** The first two arcs from the first subidentifier. */
  function Split(id: nat): (p: seq<int>)
    ensures |p| == 2 && ValidRoot(p) && p[0] * 40 + p[1] == id
  {
    var root := if id / 40 > 2 then 2 else id / 40;
    [root, id - root * 40]
  }

  /** The arcs in t[i..], behind those already found. */
  function Arcs(t: seq<byte>, i: nat, p: seq<int>, max: nat): Option<seq<int>>
    decreases |t| - i
  {
    if i >= |t| then Some(p)
    else
      match HighTag(t, i, 0)
      case None => None
      case Some((next, id)) =>
        var q := if p != [] then p + [id] else Split(id);
        if id > INT_MAX || |q| >= max then None else Arcs(t, next, q, max)
  }

  /** ber_oidc: the octets read and the arcs; None for an error. */
  function DecOid(s: seq<byte>, i: nat, max: nat): Option<(nat, seq<int>)> {
    var l := DecLen(s, i);
    if !l.Length? || l.len < 0 || i + l.n + l.len > |s| then None
    else
      match Arcs(s[..i + l.n + l.len], i + l.n, [], max)
      case None => None
      case Some(p) => if |p| < 2 then None else Some((l.n + l.len, p))
  }

  // ---- round trip

  lemma SubIdRead(t: seq<byte>, i: nat, id: nat)
    requires OccursAt(t, i, Base128(id)) && id <= INT_MAX
    ensures HighTag(t, i, 0) == Some((i + |Base128(id)|, id))
  {
    hide Value, HighTag, Base128, OccursAt;
    var o := Base128(id);
    Base128Shape(id);
    OccursSlice(t, i, o);
    var end := i + |o|;
    forall k | i <= k < end ensures t[k] == o[k - i] { assert t[i..end][k - i] == t[k]; }
    assert t[i..i] == [] && SevenBits([]) == [];
    EmptyValue(128);
    HighTagExact(t, i, i, end, 0);
    ValueDigits(128, id);
  }

  lemma {:induction false} ArcsRead(t: seq<byte>, i: nat, ids: seq<nat>, p: seq<int>, max: nat)
    requires p != [] && |p| < max && i <= |t| && t[i..] == OidContent(ids)
    requires forall k :: 0 <= k < |ids| ==> ids[k] <= INT_MAX
    ensures Arcs(t, i, p, max) == if |p| + |ids| < max then Some(p + ids) else None
    decreases |ids|
  {
    hide HighTag, Base128, Arcs, OidContent;
    if ids == [] {
      ArcsEnd(t, i, p, max);
      assert p + ids == p;
    } else {
      NextId(t, i, ids);
      var next := i + |Base128(ids[0])|;
      ArcsStep(t, i, p, max, next, ids[0]);
      var q := p + [ids[0]];
      if |q| < max {
        ArcsRead(t, next, ids[1..], q, max);
        assert q + ids[1..] == p + ids;
      }
    }
  }

  lemma ArcsEnd(t: seq<byte>, i: nat, p: seq<int>, max: nat)
    requires i <= |t| && t[i..] == OidContent([])
    ensures Arcs(t, i, p, max) == Some(p)
  {
    assert |t[i..]| == 0;
  }

  lemma ArcsStep(t: seq<byte>, i: nat, p: seq<int>, max: nat, next: nat, id: nat)
    requires i < |t| && HighTag(t, i, 0) == Some((next, id)) && id <= INT_MAX
    ensures var q := if p != [] then p + [id] else Split(id);
            Arcs(t, i, p, max) == if |q| < max then Arcs(t, next, q, max) else None
  {
    hide HighTag, Split;
  }

  /** The next subidentifier, and what follows it. */
  lemma NextId(t: seq<byte>, i: nat, ids: seq<nat>)
    requires ids != [] && i <= |t| && t[i..] == OidContent(ids) && ids[0] <= INT_MAX
    ensures var next := i + |Base128(ids[0])|;
            i < next <= |t| && HighTag(t, i, 0) == Some((next, ids[0])) && t[next..] == OidContent(ids[1..])
  {
    hide HighTag, Base128;
    var o := Base128(ids[0]);
    assert t[i..] == o + OidContent(ids[1..]);
    assert OccursAt(t, i, o) by {
      forall k | 0 <= k < |o| ensures t[i + k] == o[k] { assert t[i..][k] == t[i + k]; }
    }
    SubIdRead(t, i, ids[0]);
    assert t[i + |o|..] == t[i..][|o|..];
  }

  /** The first two arcs come back exactly if they are valid. */
  lemma SplitExact(p: seq<int>)
    requires |p| >= 2 && p[0] >= 0 && p[1] >= 0
    ensures Split(p[0] * 40 + p[1]) == p[..2] <==> ValidRoot(p)
  {
    var q := Split(p[0] * 40 + p[1]);
    assert q == [q[0], q[1]] && p[..2] == [p[0], p[1]];
  }

  lemma ContentRead(t: seq<byte>, i: nat, p: seq<int>, max: nat)
    requires |p| >= 2 && p[0] >= 0 && p[1] >= 0 && IntArcs(p)
    requires i <= |t| && t[i..] == OidContent(SubIds(p))
    ensures Arcs(t, i, [], max) == if |p| < max then Some(Split(p[0] * 40 + p[1]) + p[2..]) else None
  {
    hide HighTag, Base128, Split, Arcs, OidContent;
    var ids := SubIds(p);
    NextId(t, i, ids);
    assert ids[1..] == p[2..];
    ArcsStep(t, i, [], max, i + |Base128(ids[0])|, ids[0]);
    if 2 < max {
      ArcsRead(t, i + |Base128(ids[0])|, ids[1..], Split(ids[0]), max);
    }
  }

  /** Round trip: what is written is read back in full, whatever follows, if and only if there are
      fewer arcs than max_oid_size; and the arcs are the same if and only if the first two are valid. */
  lemma OidRoundTrip(before: seq<byte>, p: seq<int>, rest: seq<byte>, max: nat)
    requires IntArcs(p) && EncOid(p).Some?
    ensures var octets := EncOid(p).value;
            var r := DecOid(before + octets + rest, |before|, max);
            && (r.Some? <==> |p| < max)
            && (r.Some? ==> r.value.0 == |octets| && (r.value.1 == p <==> ValidRoot(p)))
  {
    hide HighTag, OidContent, Arcs, Split, Value;
    var octets := EncOid(p).value;
    var content := OidContent(SubIds(p));
    var s, i := before + octets + rest, |before|;
    assert s[i] == |content|;
    var t := s[..i + 1 + |content|];
    assert t[i + 1..] == content;
    ContentRead(t, i + 1, p, max);
    SplitExact(p);
    assert p == p[..2] + p[2..];
    var front := Split(p[0] * 40 + p[1]);
    assert (front + p[2..])[..2] == front;
  }

  /** Whatever is accepted has valid first arcs. */
  lemma {:induction false} ArcsValid(t: seq<byte>, i: nat, p: seq<int>, max: nat)
    requires p == [] || (ValidRoot(p) && forall k :: 0 <= k < |p| ==> 0 <= p[k] <= INT_MAX)
    ensures var r := Arcs(t, i, p, max);
            r.Some? && (p != [] || i < |t|) ==>
              ValidRoot(r.value) && (forall k :: 0 <= k < |r.value| ==> 0 <= r.value[k] <= INT_MAX) &&
              (p != [] ==> |p| <= |r.value|)
    decreases |t| - i
  {
    hide HighTag, Split;
    if i < |t| {
      match HighTag(t, i, 0)
      case None =>
      case Some((next, id)) =>
        var q := if p != [] then p + [id] else Split(id);
        if id <= INT_MAX && |q| < max {
          SplitSmall(id);
          ArcsValid(t, next, q, max);
        }
    }
  }

  lemma SplitSmall(id: nat)
    ensures 0 <= Split(id)[0] <= id && 0 <= Split(id)[1] <= id
  {
  }

  /** Every identifier the decoder accepts has at least two arcs, fewer than max_oid_size, none negative,
      and a valid root. */
  lemma DecodedValid(s: seq<byte>, i: nat, max: nat)
    requires DecOid(s, i, max).Some?
    ensures var p := DecOid(s, i, max).value.1;
            ValidRoot(p) && forall k :: 0 <= k < |p| ==> 0 <= p[k] <= INT_MAX
  {
    hide Arcs;
    var l := DecLen(s, i);
    var t := s[..i + l.n + l.len];
    ArcsValid(t, i + l.n, [], max);
    if l.len == 0 {
      NoArcs(t, i + l.n, max);
    }
  }

  lemma NoArcs(t: seq<byte>, i: nat, max: nat)
    requires i >= |t|
    ensures Arcs(t, i, [], max) == Some([])
  {
  }

  // ---- the loops

  /** The encoding arm of ber_oidc. */
  method BerOidEncode(o: Stream, p: seq<int>) returns (ok: bool)
    requires o.Valid() && o.pos == |o.buf| && IntArcs(p)
    modifies o
    ensures ok <==> EncOid(p).Some?
    ensures ok ==> o.Valid() && o.pos == |o.buf| && o.buf == old(o.buf) + EncOid(p).value
  {
    hide Base128, OidContent;
    ghost var before := o.buf;
    var lenp := o.pos;
    o.Putc(0);
    if |p| < 2 || p[0] < 0 || p[1] < 0 {
      return false;
    }
    ghost var ids := SubIds(p);
    ghost var content := OidContent(ids);
    var octs := new nat[8];
    var pos := 1;
    assert before + [0] + content == o.buf + OidContent(ids[0..]) by { assert ids[0..] == ids; }
    while pos < |p|
      invariant 1 <= pos <= |p| && o.Valid() && o.pos == |o.buf| && octs.Length == 8
      invariant fresh(octs) && before + [0] + content == o.buf + OidContent(ids[pos - 1..])
    {
      var id := if pos == 1 then p[0] * 40 + p[1] else p[pos];
      assert id == ids[pos - 1];
      SubIdFits(id);
      ContentStep(ids, pos - 1);
      ghost var text := o.buf;
      PutBase128(o, octs, id);
      Regroup(text, Base128(id), OidContent(ids[pos..]));
      pos := pos + 1;
    }
    assert ids[|p| - 1..] == [];
    EmptyContent();
    assert o.buf + [] == o.buf;
    var end := o.pos;
    var len := end - lenp - 1;
    o.Seek(lenp);
    if len > INT_MAX { // more than an int holds
      return false;
    }
    var n := BerEnclen(o, len, 1, true);
    if n != 1 {
      return false;
    }
    o.Seek(|o.buf|);
    LengthPatched(before, content);
    ok := true;
  }

  lemma LengthPatched(before: seq<byte>, content: seq<byte>)
    requires |content| <= 127
    ensures Overwrite(before + [0] + content, |before|, EncLen(|content|, 1,
        true).1) == before + ([|content|] + content)
  {
  }

  lemma SubIdFits(id: nat)
    requires id <= INT_MAX
    ensures |Digits(128, id)| <= 8
  {
    assert Pow(128, 1) == 128 && Pow(128, 2) == 0x4000 && Pow(128, 3) == 0x20_0000 && Pow(128, 4) == 0x1000_0000;
    assert Pow(128, 5) == 0x8_0000_0000;
    LengthBound(128, id, 5);
  }

  lemma ContentStep(ids: seq<nat>, k: nat)
    requires k < |ids|
    ensures OidContent(ids[k..]) == Base128(ids[k]) + OidContent(ids[k + 1..])
  {
    assert ids[k..][1..] == ids[k + 1..];
  }

  lemma EmptyContent()
    ensures OidContent([]) == []
  {
  }

  /** One subidentifier: the loop ends early if the contents do. */
  method SubId(t: seq<byte>, i: nat) returns (r: Option<(nat, nat)>)
    ensures r == HighTag(t, i, 0)
  {
    var id: nat, bp := 0, i;
    while true
      invariant i <= bp && HighTag(t, bp, id) == HighTag(t, i, 0)
      decreases |t| - bp
    {
      if bp >= |t| {
        return None;
      }
      id := (id * 128 + t[bp] % 128) % WORD;
      bp := bp + 1;
      if t[bp - 1] < 128 {
        return Some((bp, id));
      }
    }
  }

  /** The decoding arm of ber_oidc. */
  method BerOidDecode(s: seq<byte>, i: nat, max: nat) returns (r: Option<(nat, seq<int>)>)
    ensures r == DecOid(s, i, max)
  {
    hide HighTag, DecLen, Split;
    var l := BerDeclen(s, i);
    if !l.Length? || l.len < 0 || i + l.n + l.len > |s| {
      return None;
    }
    var t, bp := s[..i + l.n + l.len], i + l.n;
    var p: seq<int> := [];
    while bp < |t|
      invariant bp <= |t| && Arcs(t, bp, p, max) == Arcs(t, i + l.n, [], max)
      invariant |p| != 1
      decreases |t| - bp
    {
      var sub := SubId(t, bp);
      if sub.None? {
        return None;
      }
      bp := sub.value.0;
      var id := sub.value.1;
      if id > INT_MAX {
        return None;
      }
      p := if |p| > 0 then p + [id] else Split(id);
      if |p| >= max {
        return None;
      }
    }
    if |p| < 2 {
      return None;
    }
    r := Some((l.n + l.len, p));
  }
}
