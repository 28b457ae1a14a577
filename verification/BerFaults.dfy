/** What completeBER_n rejects, src/ber_any.c:48-122: exactly the buffers that begin with a fault. */
module BerFaults {
  import opened Bytes
  import opened Pieces
  import opened BerHeader
  import opened BerFramer

  /** End-of-contents octets in place of an element; length octets that do not fit an int; a primitive element
      of indefinite length; an element below the nesting limit; or one of these inside an indefinite element,
      behind some of its children. */
  datatype Fault =
    | Nothing
    | Oversized(id: seq<byte>, length: seq<byte>)
    | Endless(id: seq<byte>)
    | Deep(first: byte, second: byte)
    | Within(id: seq<byte>, before: seq<Element>, fault: Fault)

  /** Length octets that announce more than three of them, and the reserved form. */
  predicate IsOversized(length: seq<byte>) {
    length == [0xFF] || (|length| >= 5 && length[0] == 128 + |length| - 1 < 0xFF)
  }

  ghost predicate IsFault(f: Fault, level: nat) {
    match f
    case Nothing => level == 0
    case Oversized(id, length) => level <= MAX_LEVEL && IsIdentifier(id) && IsOversized(length)
    case Endless(id) => level <= MAX_LEVEL && IsIdentifier(id) && !IsConstructed(id)
    case Deep(a, b) => level == MAX_LEVEL + 1 && !(a == 0 && b == 0)
    case Within(id, before, fault) =>
      && level <= MAX_LEVEL && IsIdentifier(id) && IsConstructed(id)
      && ValidAll(before) && level + DepthAll(before) <= MAX_LEVEL && IsFault(fault, level + 1)
  }

  ghost function FaultText(f: Fault): seq<byte> {
    match f
    case Nothing => [0, 0]
    case Oversized(id, length) => id + length
    case Endless(id) => id + [0x80]
    case Deep(a, b) => [a, b]
    case Within(id, before, fault) => id + ([0x80] + (EncodeAll(before) + FaultText(fault)))
  }

  // ---- faults are rejected

  lemma FaultStarts(f: Fault, level: nat)
    requires IsFault(f, level)
    ensures |FaultText(f)| >= 2 && ((FaultText(f)[0] == 0 && FaultText(f)[1] == 0) <==> f.Nothing?)
  {
    hide EncodeAll, ValidAll, DepthAll;
    if f.Within? {
      FaultStarts(f.fault, level + 1);
    }
  }

  lemma FaultAt(s: seq<byte>, i: nat, f: Fault, level: nat)
    requires IsFault(f, level) && OccursAt(s, i, FaultText(f))
    ensures i + 2 <= |s| && ((s[i] == 0 && s[i + 1] == 0) <==> f.Nothing?)
  {
    hide FaultText, IsFault;
    FaultStarts(f, level);
    assert s[i + 0] == FaultText(f)[0] && s[i + 1] == FaultText(f)[1];
  }

  lemma OversizedRead(s: seq<byte>, i: nat, length: seq<byte>)
    requires IsOversized(length) && OccursAt(s, i, length)
    ensures DecLen(s, i) == Bad
  {
    assert s[i + 0] == length[0];
  }

  lemma {:induction false} FaultRejected(s: seq<byte>, i: nat, level: nat, f: Fault)
    requires IsFault(f, level) && OccursAt(s, i, FaultText(f))
    ensures Complete(s, i, level) == -1
    decreases f, 0
  {
    hide OccursAt, DecTag, DecLen, IsIdentifier, IsOversized, EncodeAll, ValidAll, DepthAll, Children;
    FaultAt(s, i, f, level);
    match f
    case Nothing =>
    case Deep(_, _) =>
    case Oversized(id, length) =>
      HeaderAt(s, i, id, length);
      OversizedRead(s, i + |id|, length);
    case Endless(id) =>
      HeaderAt(s, i, id, [0x80]);
      EndlessRead(s, i + |id|);
    case Within(id, before, fault) =>
      var tail := EncodeAll(before) + FaultText(fault);
      HeaderAt(s, i, id, [0x80] + tail);
      OccursSplit(s, i + |id|, [0x80], tail);
      EndlessRead(s, i + |id|);
      KidsRejected(s, i + |id| + 1, level, before, fault);
  }

  lemma EndlessRead(s: seq<byte>, i: nat)
    requires OccursAt(s, i, [0x80])
    ensures DecLen(s, i) == Length(1, -1)
  {
    assert s[i + 0] == [0x80][0];
  }

  lemma {:induction false} KidsRejected(s: seq<byte>, b: nat, level: nat, before: seq<Element>, f: Fault)
    requires ValidAll(before) && level + DepthAll(before) <= MAX_LEVEL && IsFault(f, level + 1)
    requires OccursAt(s, b, EncodeAll(before) + FaultText(f))
    ensures Children(s, b, level) == -1
    decreases f, |before| + 1
  {
    hide OccursAt, Complete, Encode, Valid, Depth, FaultText, IsFault;
    if before == [] {
      assert [] + FaultText(f) == FaultText(f);
      FaultAt(s, b, f, level + 1);
      NotNothing(f, level);
      FaultRejected(s, b, level + 1, f);
    } else {
      var first, rest := Encode(before[0]), EncodeAll(before[1..]);
      Regroup(first, rest, FaultText(f));
      OccursSplit(s, b, first, rest + FaultText(f));
      CompleteExact(s, b, level + 1, before[0]);
      NotEndOfContents(s, b, before[0]);
      KidsRejected(s, b + |first|, level, before[1..], f);
    }
  }

  lemma NotNothing(f: Fault, level: nat)
    requires IsFault(f, level + 1)
    ensures !f.Nothing?
  {
  }

  // ---- what is rejected has one

  lemma {:induction false} FaultFound(s: seq<byte>, i: nat, level: nat) returns (f: Fault)
    requires Complete(s, i, level) == -1 && level <= MAX_LEVEL + 1
    requires level > 0 ==> i + 2 <= |s| && !(s[i] == 0 && s[i + 1] == 0)
    ensures IsFault(f, level) && OccursAt(s, i, FaultText(f))
    decreases |s| - i, 1
  {
    hide ReadHead, Children, IsFault, FaultText, OccursAt;
    if level > MAX_LEVEL {
      f := Deep(s[i], s[i + 1]);
      DeepFault(s, i, level);
    } else if ReadHead(s, i, level).Stop? {
      f := HeadFault(s, i, level);
    } else {
      var b := OpenAt(s, i, level);
      var before, fault, e := KidsFault(s, b, level);
      f := Within(s[i..b - 1], before, fault);
      WithinFault(s, i, b, e, level, before, fault);
    }
  }

  lemma DeepFault(s: seq<byte>, i: nat, level: nat)
    requires level == MAX_LEVEL + 1 && i + 2 <= |s| && !(s[i] == 0 && s[i + 1] == 0)
    ensures var f := Deep(s[i], s[i + 1]); IsFault(f, level) && OccursAt(s, i, FaultText(f))
  {
  }

  lemma HeadFault(s: seq<byte>, i: nat, level: nat) returns (f: Fault)
    requires ReadHead(s, i, level) == Stop(-1) && level <= MAX_LEVEL
    requires level > 0 ==> i + 2 <= |s| && !(s[i] == 0 && s[i + 1] == 0)
    ensures IsFault(f, level) && OccursAt(s, i, FaultText(f))
  {
    hide DecTag, OccursAt, IsIdentifier, IsOversized, EncodeAll, ValidAll, DepthAll;
    if s[i] == 0 && s[i + 1] == 0 {
      f := Nothing;
      assert s[i..i + 2] == [0, 0];
      OccursHere(s, i, i + 2, [0, 0]);
    } else {
      var m := i + DecTag(s, i).value.n;
      DecTagSound(s, i);
      FormBit(s, i);
      if DecLen(s, m) == Bad {
        var e := OversizedFound(s, m);
        f := Oversized(s[i..m], s[m..e]);
        assert s[i..e] == s[i..m] + s[m..e];
        OccursHere(s, i, e, s[i..e]);
      } else {
        f := Endless(s[i..m]);
        assert s[i..m + 1] == s[i..m] + [0x80];
        OccursHere(s, i, m + 1, s[i..m + 1]);
      }
    }
  }

  lemma OversizedFound(s: seq<byte>, m: nat) returns (e: nat)
    requires DecLen(s, m) == Bad
    ensures m < e <= |s| && IsOversized(s[m..e])
  {
    e := if s[m] == 0xFF then m + 1 else m + 1 + (s[m] - 128);
    assert s[m..e][0] == s[m];
    if s[m] == 0xFF { assert s[m..e] == [0xFF]; }
  }

  lemma OpenAt(s: seq<byte>, i: nat, level: nat) returns (b: nat)
    requires Complete(s, i, level) == -1 && !ReadHead(s, i, level).Stop?
    ensures i + 2 <= b <= |s| && Children(s, b, level) == -1 && s[b - 1] == 0x80
    ensures IsIdentifier(s[i..b - 1]) && IsConstructed(s[i..b - 1])
  {
    hide DecTag, Children, IsIdentifier, IsConstructed;
    DecTagSound(s, i);
    FormBit(s, i);
    b := ReadHead(s, i, level).b;
  }

  lemma {:induction false} KidsFault(s: seq<byte>, b: nat, level: nat)
    returns (before: seq<Element>, f: Fault, e: nat)
    requires Children(s, b, level) == -1 && level <= MAX_LEVEL
    ensures ValidAll(before) && level + DepthAll(before) <= MAX_LEVEL && IsFault(f, level + 1)
    ensures b <= e <= |s| && EncodeAll(before) == s[b..e] && OccursAt(s, e, FaultText(f))
    decreases |s| - b, 2
  {
    hide Complete, Encode, Valid, Depth, IsFault, FaultText, OccursAt;
    var r := Complete(s, b, level + 1);
    if r == -1 {
      before, e := [], b;
      f := FaultFound(s, b, level + 1);
    } else {
      var first := CompleteSound(s, b, level + 1);
      var rest;
      rest, f, e := KidsFault(s, b + r, level);
      before := [first] + rest;
      assert s[b..e] == s[b..b + r] + s[b + r..e];
    }
  }

  lemma WithinFault(s: seq<byte>, i: nat, b: nat, e: nat, level: nat, before: seq<Element>, fault: Fault)
    requires level <= MAX_LEVEL && i + 2 <= b <= e <= |s| && s[b - 1] == 0x80
    requires IsIdentifier(s[i..b - 1]) && IsConstructed(s[i..b - 1])
    requires ValidAll(before) && level + DepthAll(before) <= MAX_LEVEL && IsFault(fault, level + 1)
    requires EncodeAll(before) == s[b..e] && OccursAt(s, e, FaultText(fault))
    ensures var f := Within(s[i..b - 1], before, fault); IsFault(f, level) && OccursAt(s, i, FaultText(f))
  {
    hide OccursAt, IsIdentifier, IsConstructed, ValidAll, DepthAll, EncodeAll;
    OccursHere(s, b, e, s[b..e]);
    OccursJoin(s, b, s[b..e], FaultText(fault));
    assert s[b - 1..b] == [0x80];
    OccursHere(s, b - 1, b, [0x80]);
    OccursJoin(s, b - 1, [0x80], EncodeAll(before) + FaultText(fault));
    OccursHere(s, i, b - 1, s[i..b - 1]);
    OccursJoin(s, i, s[i..b - 1], [0x80] + (EncodeAll(before) + FaultText(fault)));
  }

  /** The framer rejects a buffer if and only if it begins with a fault. */
  lemma RejectsExactly(s: seq<byte>)
    ensures Complete(s, 0, 0) == -1 <==> exists f :: IsFault(f, 0) && OccursAt(s, 0, FaultText(f))
  {
    hide Complete, IsFault, FaultText, OccursAt;
    if Complete(s, 0, 0) == -1 {
      var f := FaultFound(s, 0, 0);
    }
    if f :| IsFault(f, 0) && OccursAt(s, 0, FaultText(f)) {
      FaultRejected(s, 0, 0, f);
    }
  }
}
