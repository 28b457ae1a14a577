/** BER message framing: completeBER_n of src/ber_any.c and the second walker of src/dumpber.c. The C
    routines take a pointer into the buffer and the octets left; here that is a position `i` in `s`. */
module BerFramer {
  import opened Bytes
  import opened Pieces
  import opened BerHeader

  const MAX_LEVEL := 1000

  // ---- the two walkers as functions

  /** What the first octets of an element tell completeBER_n: a verdict, or where the contents start
      and whether their length is known. */
  datatype Head = Stop(verdict: int) | Known(b: nat, len: nat) | Open(b: nat)

  function ReadHead(s: seq<byte>, i: nat, level: nat): (h: Head)
    ensures h.Stop? ==> h.verdict == 0 || h.verdict == -1
    ensures !h.Stop? ==> i + 2 <= h.b <= |s|
  {
    if level > MAX_LEVEL then Stop(-1)
    else if i + 2 > |s| then Stop(0)
    else if s[i] == 0 && s[i + 1] == 0 then Stop(-1)
    else
      match DecTag(s, i)
      case None => Stop(0)
      case Some(tag) =>
        match DecLen(s, i + tag.n)
        case Bad => Stop(-1)
        case Incomplete => Stop(0)
        case Length(n, len) =>
          if len >= 0 then Known(i + tag.n + n, len)
          else if !tag.cons then Stop(-1)
          else Open(i + tag.n + n)
  }

  /** completeBER_n: 0 incomplete, -1 error, otherwise the length of the element at `i`. */
  function Complete(s: seq<byte>, i: nat, level: nat): (r: int)
    ensures -1 <= r && (r > 0 ==> i + r <= |s|)
    decreases |s| - i, 1
  {
    match ReadHead(s, i, level)
    case Stop(v) => v
    case Known(b, len) => if |s| - b < len then 0 else b - i + len
    case Open(b) =>
      var end := Children(s, b, level);
      if end <= 0 then end else end - i
  }

  /** The loop over the children of an indefinite element: the position after the end-of-contents
      octets, or the verdict that stops the loop. */
  function Children(s: seq<byte>, b: nat, level: nat): (end: int)
    ensures -1 <= end && (end > 0 ==> b + 2 <= end <= |s|)
    decreases |s| - b, 2
  {
    if b + 2 > |s| then 0
    else if s[b] == 0 && s[b + 1] == 0 then b + 2
    else
      var r := Complete(s, b, level + 1);
      if r <= 0 then r else Children(s, b + r, level)
  }

  /** What do_dumpBER makes of an element: failure, or its length and how deep indefinite elements
      are nested in it. */
  datatype Dumped = Failed | Dumped(r: nat, depth: nat)

  function Deeper(kid: Dumped, depth: nat): nat
    requires kid.Dumped?
  {
    if kid.depth + 1 > depth then kid.depth + 1 else depth
  }

  /** do_dumpBER on the window `s`. */
  function Dump(s: seq<byte>, i: nat): (d: Dumped)
    ensures d.Dumped? ==> 0 < d.r && i + d.r <= |s|
    decreases |s| - i, 1
  {
    if i >= |s| || (s[i] == 0 && i + 1 < |s| && s[i + 1] == 0) then Failed
    else
      match DecTag(s, i)
      case None => Failed
      case Some(tag) =>
        match DecLen(s, i + tag.n)
        case Bad => Failed
        case Incomplete => Failed
        case Length(n, len) =>
          var b := i + tag.n + n;
          if len > |s| - b || (!tag.cons && len < 0) then Failed
          else if !tag.cons then Dumped(b - i + len, 0)
          else if len >= 0 then
            if DumpDefinite(s[..b + len], b) then Dumped(b - i + len, 0) else Failed
          else
            match DumpIndefinite(s, b)
            case Failed => Failed
            case Dumped(end, depth) => Dumped(end - i, depth)
  }

  /** The child loop of a definite constructed element: the children fill the window. */
  function DumpDefinite(s: seq<byte>, b: nat): bool
    decreases |s| - b, 2
  {
    b == |s| || (Dump(s, b).Dumped? && DumpDefinite(s, b + Dump(s, b).r))
  }

  /** The child loop of an indefinite element; `r` is the position after the end-of-contents octets. */
  function DumpIndefinite(s: seq<byte>, b: nat): (d: Dumped)
    ensures d.Dumped? ==> b + 2 <= d.r <= |s|
    decreases |s| - b, 2
  {
    if b + 2 > |s| then Failed
    else if s[b] == 0 && s[b + 1] == 0 then Dumped(b + 2, 0)
    else
      var kid := Dump(s, b);
      if kid.Failed? then Failed
      else
        match DumpIndefinite(s, b + kid.r)
        case Failed => Failed
        case Dumped(end, depth) => Dumped(end, Deeper(kid, depth))
  }

  // ---- verdicts under extension of the buffer

  lemma ReadHeadStable(s: seq<byte>, t: seq<byte>, i: nat, level: nat)
    requires s <= t
    ensures ReadHead(s, i, level) != Stop(0) ==> ReadHead(t, i, level) == ReadHead(s, i, level)
  {
    DecTagStable(s, t, i);
    if DecTag(s, i).Some? {
      DecLenStable(s, t, i + DecTag(s, i).value.n);
    }
  }

  /** Every non-zero verdict of the BER framer is final. */
  lemma {:induction false} CompleteStable(s: seq<byte>, t: seq<byte>, i: nat, level: nat)
    requires s <= t
    ensures Complete(s, i, level) != 0 ==> Complete(t, i, level) == Complete(s, i, level)
    decreases |s| - i, 1
  {
    hide ReadHead, Children;
    ReadHeadStable(s, t, i, level);
    if ReadHead(s, i, level).Open? {
      ChildrenStable(s, t, ReadHead(s, i, level).b, level);
    }
  }

  lemma {:induction false} ChildrenStable(s: seq<byte>, t: seq<byte>, b: nat, level: nat)
    requires s <= t
    ensures Children(s, b, level) != 0 ==> Children(t, b, level) == Children(s, b, level)
    decreases |s| - b, 2
  {
    hide Complete;
    if b + 2 <= |s| && !(s[b] == 0 && s[b + 1] == 0) {
      CompleteStable(s, t, b, level + 1);
      var r := Complete(s, b, level + 1);
      if r > 0 { ChildrenStable(s, t, b + r, level); }
    }
  }

  // ---- element trees

  /** BER elements after sections 8.1.2, 8.1.3 and 8.1.5 of X.690, with the octets they are written
      with: a definite element keeps its contents as they are, an indefinite one has children. */
  datatype Element =
    | Definite(id: seq<byte>, length: seq<byte>, content: seq<byte>)
    | Indefinite(id: seq<byte>, kids: seq<Element>)

  ghost function Encode(e: Element): seq<byte>
    decreases e, 1
  {
    match e
    case Definite(id, length, content) => id + length + content
    case Indefinite(id, kids) => id + [0x80] + EncodeAll(kids) + [0, 0]
  }

  ghost function EncodeAll(kids: seq<Element>): seq<byte>
    decreases kids, 0
  {
    if kids == [] then [] else Encode(kids[0]) + EncodeAll(kids[1..])
  }

  /** Well-formed, and not to be confused with end-of-contents octets. */
  ghost predicate Valid(e: Element)
    decreases e, 1
  {
    match e
    case Definite(id, length, content) =>
      IsIdentifier(id) && IsLength(length, |content|) && !(id == [0] && length == [0])
    case Indefinite(id, kids) =>
      IsIdentifier(id) && id[0] / 32 % 2 == 1 && ValidAll(kids)
  }

  ghost predicate ValidAll(kids: seq<Element>)
    decreases kids, 0
  {
    kids == [] || (Valid(kids[0]) && ValidAll(kids[1..]))
  }

  /** How deep indefinite elements are nested. */
  ghost function Depth(e: Element): nat
    decreases e, 1
  {
    match e
    case Definite(_, _, _) => 0
    case Indefinite(_, kids) => DepthAll(kids)
  }

  /** 0 for no children, otherwise one more than the deepest child. */
  ghost function DepthAll(kids: seq<Element>): nat
    decreases kids, 0
  {
    if kids == [] then 0
    else
      var d, rest := Depth(kids[0]) + 1, DepthAll(kids[1..]);
      if d > rest then d else rest
  }

  /** The verdict an element deserves at a nesting level. */
  ghost function Deserved(e: Element, level: nat): int {
    if level + Depth(e) <= MAX_LEVEL then |Encode(e)| else -1
  }

  /** The header of an element at `i` is decoded as it was written. */
  lemma HeaderAt(s: seq<byte>, i: nat, id: seq<byte>, rest: seq<byte>)
    requires IsIdentifier(id) && OccursAt(s, i, id + rest)
    ensures DecTag(s, i).Some? && DecTag(s, i).value.n == |id| && DecTag(s, i).value.cons == (id[0] / 32 % 2 == 1)
    ensures OccursAt(s, i + |id|, rest)
  {
    OccursSplit(s, i, id, rest);
    DecTagExact(s, i, |id|);
    assert s[i] == s[i..i + |id|][0];
  }

  lemma NotEndOfContents(s: seq<byte>, i: nat, e: Element)
    requires Valid(e) && OccursAt(s, i, Encode(e))
    ensures |Encode(e)| >= 2 && i + 2 <= |s| && !(s[i] == 0 && s[i + 1] == 0)
  {
    assert s[i + 0] == Encode(e)[0] && s[i + 1] == Encode(e)[1];
  }

  lemma KnownHead(s: seq<byte>, i: nat, level: nat, e: Element)
    requires level <= MAX_LEVEL && e.Definite? && Valid(e) && OccursAt(s, i, Encode(e))
    ensures ReadHead(s, i, level) == Known(i + |e.id| + |e.length|, |e.content|)
  {
    hide DecTag, DecLen, OccursAt, IsIdentifier, IsLength, Encode;
    NotEndOfContents(s, i, e);
    DefiniteParts(e);
    HeaderAt(s, i, e.id, e.length + e.content);
    OccursSplit(s, i + |e.id|, e.length, e.content);
    DecLenExact(s, i + |e.id|, |e.length|, |e.content|);
  }

  lemma DefiniteParts(e: Element)
    requires e.Definite?
    ensures Encode(e) == e.id + (e.length + e.content)
  {
    Regroup(e.id, e.length, e.content);
  }

  lemma OpenHead(s: seq<byte>, i: nat, level: nat, e: Element)
    requires level <= MAX_LEVEL && e.Indefinite? && Valid(e) && OccursAt(s, i, Encode(e))
    ensures ReadHead(s, i, level) == Open(i + |e.id| + 1)
    ensures OccursAt(s, i + |e.id| + 1, EncodeAll(e.kids) + [0, 0])
  {
    hide DecTag, OccursAt, EncodeAll, IsIdentifier;
    var tail := EncodeAll(e.kids) + [0, 0];
    assert Encode(e) == e.id + ([0x80] + tail);
    NotEndOfContents(s, i, e);
    HeaderAt(s, i, e.id, [0x80] + tail);
    OccursSplit(s, i + |e.id|, [0x80], tail);
    assert s[i + |e.id|] == s[i + |e.id|..i + |e.id| + 1][0];
  }

  lemma TooDeep(s: seq<byte>, i: nat, level: nat)
    requires level > MAX_LEVEL
    ensures ReadHead(s, i, level) == Stop(-1)
  {
  }

  /** The framer measures every element exactly, whatever follows it, and refuses precisely those
      that are nested too deeply. */
  lemma {:induction false} CompleteExact(s: seq<byte>, i: nat, level: nat, e: Element)
    requires Valid(e) && OccursAt(s, i, Encode(e))
    ensures Complete(s, i, level) == Deserved(e, level)
    decreases e, 1
  {
    hide ReadHead, Children, EncodeAll, DepthAll, IsIdentifier, IsLength;
    if level > MAX_LEVEL {
      TooDeep(s, i, level);
    } else {
      if e.Definite? {
        KnownHead(s, i, level, e);
        assert OccursAt(s, i, Encode(e));
      } else {
        OpenHead(s, i, level, e);
        ChildrenExact(s, i + |e.id| + 1, level, e.kids);
      }
    }
  }

  lemma {:induction false} ChildrenExact(s: seq<byte>, b: nat, level: nat, kids: seq<Element>)
    requires level <= MAX_LEVEL
    requires ValidAll(kids) && OccursAt(s, b, EncodeAll(kids) + [0, 0])
    ensures Children(s, b, level) == if level + DepthAll(kids) <= MAX_LEVEL then b + |EncodeAll(kids)| + 2 else -1
    decreases kids, 0
  {
    hide Complete, Encode, Valid, Depth;
    if kids == [] {
      assert s[b + 0] == ([] + [0, 0])[0] && s[b + 1] == ([] + [0, 0])[1];
    } else {
      var first, rest := Encode(kids[0]), EncodeAll(kids[1..]);
      assert EncodeAll(kids) + [0, 0] == first + (rest + [0, 0]);
      OccursSplit(s, b, first, rest + [0, 0]);
      CompleteExact(s, b, level + 1, kids[0]);
      NotEndOfContents(s, b, kids[0]);
      ChildrenExact(s, b + |first|, level, kids[1..]);
    }
  }

  /** The element that an accepting run has read. */
  lemma {:induction false} CompleteSound(s: seq<byte>, i: nat, level: nat) returns (e: Element)
    requires Complete(s, i, level) > 0
    ensures Valid(e) && level + Depth(e) <= MAX_LEVEL
    ensures Encode(e) == s[i..i + Complete(s, i, level)]
    decreases |s| - i, 1
  {
    hide ReadHead, Children, Valid, Encode, EncodeAll, DepthAll;
    if level > MAX_LEVEL {
      TooDeep(s, i, level);
      assert false;
    }
    var head := ReadHead(s, i, level);
    if head.Known? {
      e := KnownSound(s, i, level);
    } else {
      var kids := ChildrenSound(s, head.b, level);
      e := OpenSound(s, i, level, kids, Children(s, head.b, level));
    }
  }

  lemma KnownSound(s: seq<byte>, i: nat, level: nat) returns (e: Element)
    requires ReadHead(s, i, level).Known?
    requires ReadHead(s, i, level).b + ReadHead(s, i, level).len <= |s|
    ensures Valid(e) && Depth(e) == 0
    ensures Encode(e) == s[i..ReadHead(s, i, level).b + ReadHead(s, i, level).len]
  {
    hide DecTag, DecLen, IsIdentifier, IsLength, ReadHead;
    var Known(b, len) := ReadHead(s, i, level);
    KnownParts(s, i, level);
    var m := i + DecTag(s, i).value.n;
    DecTagSound(s, i);
    DecLenSound(s, m);
    var id, length, content := s[i..m], s[m..b], s[b..b + len];
    e := Definite(id, length, content);
    assert s[i..b + len] == id + length + content;
    assert id[0] == s[i] && length[0] == s[m] && |id| == m - i;
    assert |id| == 1 ==> s[i + 1] == length[0];
  }

  /** Where the length octets of a definite element are. */
  lemma KnownParts(s: seq<byte>, i: nat, level: nat)
    requires ReadHead(s, i, level).Known?
    ensures DecTag(s, i).Some? && i + 2 <= |s| && !(s[i] == 0 && s[i + 1] == 0)
    ensures var h, m := ReadHead(s, i, level), i + DecTag(s, i).value.n;
            i < m < h.b <= |s| && DecLen(s, m) == Length(h.b - m, h.len)
  {
    hide DecTag, DecLen;
  }

  lemma OpenSound(s: seq<byte>, i: nat, level: nat, kids: seq<Element>, end: nat) returns (e: Element)
    requires ReadHead(s, i, level).Open?
    requires ReadHead(s, i, level).b <= end <= |s|
    requires ValidAll(kids) && EncodeAll(kids) + [0, 0] == s[ReadHead(s, i, level).b..end]
    ensures Valid(e) && e.Indefinite? && e.kids == kids && Encode(e) == s[i..end]
  {
    hide EncodeAll;
    var b := ReadHead(s, i, level).b;
    DecTagSound(s, i);
    var id := s[i..b - 1];
    e := Indefinite(id, kids);
    assert id + [0x80] + (EncodeAll(kids) + [0, 0]) == Encode(e);
    OpenParts(s, i, b, end);
    assert s[i] == id[0];
  }

  lemma OpenParts(s: seq<byte>, i: nat, b: nat, end: nat)
    requires i < b <= end <= |s| && s[b - 1] == 0x80
    ensures s[i..end] == s[i..b - 1] + [0x80] + s[b..end]
  {
  }

  lemma {:induction false} ChildrenSound(s: seq<byte>, b: nat, level: nat) returns (kids: seq<Element>)
    requires level <= MAX_LEVEL
    requires Children(s, b, level) > 0
    ensures ValidAll(kids) && level + DepthAll(kids) <= MAX_LEVEL
    ensures EncodeAll(kids) + [0, 0] == s[b..Children(s, b, level)]
    decreases |s| - b, 2
  {
    hide Complete, Encode, Valid, Depth;
    if s[b] == 0 && s[b + 1] == 0 {
      kids := [];
    } else {
      var first := CompleteSound(s, b, level + 1);
      var b' := b + Complete(s, b, level + 1);
      var rest := ChildrenSound(s, b', level);
      kids := [first] + rest;
      var end := Children(s, b, level);
      assert s[b..end] == s[b..b'] + s[b'..end];
    }
  }

  /** The framer accepts a buffer if and only if it starts with an element that is not nested too
      deeply, and then returns the length of that element. */
  lemma AcceptsExactlyElements(s: seq<byte>, r: nat)
    ensures r > 0 && Complete(s, 0, 0) == r <==>
            exists e :: Valid(e) && Depth(e) <= MAX_LEVEL && Encode(e) <= s && |Encode(e)| == r
  {
    if r > 0 && Complete(s, 0, 0) == r {
      var e := CompleteSound(s, 0, 0);
      assert Encode(e) <= s && |Encode(e)| == r;
    }
    if e :| Valid(e) && Depth(e) <= MAX_LEVEL && Encode(e) <= s && |Encode(e)| == r {
      CompleteExact(s, 0, 0, e);
      NotEndOfContents(s, 0, e);
    }
  }

  /** An element tree followed by anything is measured exactly, and every strict prefix of it is
      incomplete. */
  lemma ElementFraming(e: Element, rest: seq<byte>, n: nat)
    requires Valid(e) && Depth(e) <= MAX_LEVEL
    requires n < |Encode(e)|
    ensures Complete(Encode(e) + rest, 0, 0) == |Encode(e)|
    ensures Complete(Encode(e)[..n], 0, 0) == 0
  {
    CompleteExact(Encode(e) + rest, 0, 0, e);
    CompleteExact(Encode(e), 0, 0, e);
    CompleteStable(Encode(e)[..n], Encode(e), 0, 0);
  }

  // ---- the two walkers agree

  /** Whatever do_dumpBER accepts, completeBER_n accepts with the same length if indefinite elements are
      nested within the limit, and rejects otherwise. */
  lemma {:induction false} DumpAgrees(s: seq<byte>, i: nat, level: nat)
    requires Dump(s, i).Dumped?
    ensures Complete(s, i, level) == if level + Dump(s, i).depth <= MAX_LEVEL then Dump(s, i).r else -1
    decreases |s| - i, 1
  {
    if ReadHead(s, i, level).Open? {
      DumpKidsAgree(s, ReadHead(s, i, level).b, level);
    }
  }

  lemma {:induction false} DumpKidsAgree(s: seq<byte>, b: nat, level: nat)
    requires DumpIndefinite(s, b).Dumped? && level <= MAX_LEVEL
    ensures Children(s, b, level) ==
              if level + DumpIndefinite(s, b).depth <= MAX_LEVEL then DumpIndefinite(s, b).r else -1
    decreases |s| - b, 2
  {
    hide Dump, Complete;
    if !(s[b] == 0 && s[b + 1] == 0) {
      DumpAgrees(s, b, level + 1);
      DumpKidsAgree(s, b + Dump(s, b).r, level);
    }
  }

  // ---- the C routines

  /** completeBER_n. */
  method CompleteBERn(buf: seq<byte>, i: nat, level: nat) returns (res: int)
    ensures res == Complete(buf, i, level)
    decreases |buf| - i
  {
    hide ReadHead;
    var head := CompleteHead(buf, i, level);
    if head.Stop? {
      return head.verdict;
    }
    var b := head.b;
    if head.Known? {
      if |buf| - b < head.len {
        return 0;
      }
      return head.len + (b - i);
    }
    while |buf| - b >= 2
      invariant head.b <= b
      invariant Children(buf, b, level) == Children(buf, head.b, level)
      decreases |buf| - b
    {
      if buf[b] == 0 && buf[b + 1] == 0 {
        break;
      }
      res := CompleteBERn(buf, b, level + 1);
      if res <= 0 {
        return;
      }
      b := b + res;
    }
    if |buf| - b < 2 {
      return 0;
    }
    return (b - i) + 2;
  }

  /** The checks of completeBER_n before it looks at the contents. */
  method CompleteHead(buf: seq<byte>, i: nat, level: nat) returns (h: Head)
    ensures h == ReadHead(buf, i, level)
  {
    if level > MAX_LEVEL {
      return Stop(-1);
    }
    if |buf| - i < 2 {
      return Stop(0);
    }
    if buf[i] == 0 && buf[i + 1] == 0 {
      return Stop(-1);
    }
    var tag := DecTag(buf, i);
    if tag.None? {
      return Stop(0);
    }
    var b := i + tag.value.n;
    var len := DecLen(buf, b);
    if len.Bad? {
      return Stop(-1);
    }
    if len.Incomplete? {
      return Stop(0);
    }
    b := b + len.n;
    if len.len >= 0 {
      return Known(b, len.len);
    }
    if !tag.value.cons {
      return Stop(-1);
    }
    return Open(b);
  }

  /** do_dumpBER without its printing; 0 stands for every failure. */
  method DoDumpBER(buf: seq<byte>, i: nat) returns (res: nat)
    ensures res == if Dump(buf, i).Dumped? then Dump(buf, i).r else 0
    decreases |buf| - i, 1
  {
    hide DumpDefinite, DumpIndefinite, DecTag, DecLen;
    if i >= |buf| {
      return 0;
    }
    if buf[i] == 0 && i + 1 < |buf| && buf[i + 1] == 0 {
      return 0;
    }
    var tag := DecTag(buf, i);
    if tag.None? {
      return 0;
    }
    var b := i + tag.value.n;
    var ll := DecLen(buf, b);
    if !ll.Length? {
      return 0;
    }
    b := b + ll.n;
    if !tag.value.cons {
      if ll.len < 0 || ll.len > |buf| - b {
        return 0;
      }
      return ll.len + (b - i);
    }
    if ll.len > |buf| - b {
      return 0;
    }
    var end := DumpChildren(if ll.len >= 0 then buf[..b + ll.len] else buf, b, ll.len == -1);
    return if end == 0 then 0 else end - i;
  }

  /** The child loop of do_dumpBER: the position after the element, or 0. */
  method DumpChildren(buf: seq<byte>, first: nat, indefinite: bool) returns (end: nat)
    requires 0 < first <= |buf|
    ensures indefinite ==> end == if DumpIndefinite(buf, first).Dumped? then DumpIndefinite(buf, first).r else 0
    ensures !indefinite ==> end == if DumpDefinite(buf, first) then |buf| else 0
    decreases |buf| - first, 2
  {
    hide Dump;
    var b := first;
    while (indefinite && |buf| - b >= 2) || (!indefinite && |buf| != b)
      invariant first <= b <= |buf|
      invariant !indefinite ==> DumpDefinite(buf, b) == DumpDefinite(buf, first)
      invariant indefinite ==> DumpIndefinite(buf, b).Dumped? == DumpIndefinite(buf, first).Dumped?
      invariant indefinite && DumpIndefinite(buf, b).Dumped? ==>
                  DumpIndefinite(buf, b).r == DumpIndefinite(buf, first).r
      decreases |buf| - b
    {
      if indefinite && buf[b] == 0 && buf[b + 1] == 0 {
        break;
      }
      var res := DoDumpBER(buf, b);
      if res == 0 {
        return 0;
      }
      b := b + res;
    }
    if indefinite {
      if |buf| - b < 2 {
        return 0;
      }
      return b + 2;
    }
    return b;
  }
}
