/** What do_dumpBER accepts, src/dumpber.c:19-128: exactly the elements whose constructed contents are elements
    again, all the way down. */
module BerDump {
  import opened Bytes
  import opened Pieces
  import opened BerHeader
  import opened BerFramer

  datatype Tree =
    | Primitive(id: seq<byte>, length: seq<byte>, content: seq<byte>)
    | Filled(id: seq<byte>, length: seq<byte>, kids: seq<Tree>)
    | Unmeasured(id: seq<byte>, kids: seq<Tree>)

  predicate IsTree(t: Tree)
    decreases t, 1
  {
    && IsIdentifier(t.id) && IsConstructed(t.id) == !t.Primitive?
    && match t
       case Primitive(id, length, content) => IsLength(length, |content|) && !(id == [0] && length == [0])
       case Filled(_, length, kids) => AreTrees(kids) && IsLength(length, |TreesText(kids)|)
       case Unmeasured(_, kids) => AreTrees(kids)
  }

  predicate AreTrees(kids: seq<Tree>)
    decreases kids, 0
  {
    kids == [] || (IsTree(kids[0]) && AreTrees(kids[1..]))
  }

  function TreeText(t: Tree): seq<byte>
    decreases t, 1
  {
    match t
    case Primitive(id, length, content) => id + (length + content)
    case Filled(id, length, kids) => id + (length + TreesText(kids))
    case Unmeasured(id, kids) => id + ([0x80] + (TreesText(kids) + [0, 0]))
  }

  function TreesText(kids: seq<Tree>): seq<byte>
    decreases kids, 0
  {
    if kids == [] then [] else TreeText(kids[0]) + TreesText(kids[1..])
  }

  /** How deep elements of indefinite length are nested from the outside; a length hides what is inside. */
  function Levels(t: Tree): nat
    decreases t, 1
  {
    if t.Unmeasured? then KidsLevels(t.kids) else 0
  }

  function KidsLevels(kids: seq<Tree>): nat
    decreases kids, 0
  {
    if kids == [] then 0
    else
      var d, rest := Levels(kids[0]) + 1, KidsLevels(kids[1..]);
      if d > rest then d else rest
  }

  // ---- trees are accepted

  lemma LengthShape(length: seq<byte>, n: nat)
    requires IsLength(length, n)
    ensures length != [] && (length[0] == 0 <==> length == [0]) && length[0] != 0x80
  {
  }

  lemma IdShape(id: seq<byte>)
    requires IsIdentifier(id)
    ensures id != [] && (id[0] == 0 <==> id == [0])
  {
  }

  /** No tree begins with end-of-contents octets. */
  lemma TreeStarts(s: seq<byte>, i: nat, t: Tree)
    requires IsTree(t) && OccursAt(s, i, TreeText(t))
    ensures |TreeText(t)| >= 2 && i + 2 <= |s| && !(s[i] == 0 && s[i + 1] == 0)
  {
    hide TreesText, AreTrees, IsIdentifier, IsLength;
    IdShape(t.id);
    if !t.Unmeasured? { LengthShape(t.length, if t.Primitive? then |t.content| else |TreesText(t.kids)|); }
    assert s[i + 0] == TreeText(t)[0] && s[i + 1] == TreeText(t)[1];
  }

  lemma {:induction false} TreeDumped(s: seq<byte>, i: nat, t: Tree)
    requires IsTree(t) && OccursAt(s, i, TreeText(t))
    ensures Dump(s, i) == Dumped(|TreeText(t)|, Levels(t))
    decreases t, 1
  {
    hide OccursAt, DecTag, DecLen, IsIdentifier, IsLength, TreesText, AreTrees, DumpDefinite, DumpIndefinite,
         KidsLevels;
    TreeStarts(s, i, t);
    var j := i + |t.id|;
    match t
    case Primitive(id, length, content) =>
      HeaderAt(s, i, id, length + content);
      LengthAt(s, j, length, content);
    case Filled(id, length, kids) =>
      var content := TreesText(kids);
      HeaderAt(s, i, id, length + content);
      LengthAt(s, j, length, content);
      var b := j + |length|;
      var w := s[..b + |content|];
      Window(s, b, content);
      FilledDumped(w, b, kids);
    case Unmeasured(id, kids) =>
      HeaderAt(s, i, id, [0x80] + (TreesText(kids) + [0, 0]));
      OpenAt(s, j, TreesText(kids) + [0, 0]);
      KidsDumped(s, j + 1, kids);
  }

  lemma LengthAt(s: seq<byte>, j: nat, length: seq<byte>, content: seq<byte>)
    requires IsLength(length, |content|) && OccursAt(s, j, length + content)
    ensures DecLen(s, j) == Length(|length|, |content|)
    ensures j + |length| + |content| <= |s| && OccursAt(s, j + |length|, content)
  {
    hide IsLength, DecLen, OccursAt;
    OccursSplit(s, j, length, content);
    OccursSlice(s, j + |length|, content);
    OccursSlice(s, j, length);
    DecLenExact(s, j, |length|, |content|);
  }

  lemma OpenAt(s: seq<byte>, j: nat, rest: seq<byte>)
    requires OccursAt(s, j, [0x80] + rest)
    ensures DecLen(s, j) == Length(1, -1) && OccursAt(s, j + 1, rest)
  {
    hide OccursAt;
    OccursSplit(s, j, [0x80], rest);
    OccursOne(s, j, 0x80);
  }

  lemma Window(s: seq<byte>, b: nat, content: seq<byte>)
    requires OccursAt(s, b, content)
    ensures b + |content| <= |s| && OccursAt(s[..b + |content|], b, content)
  {
  }

  lemma {:induction false} FilledDumped(s: seq<byte>, b: nat, kids: seq<Tree>)
    requires AreTrees(kids) && OccursAt(s, b, TreesText(kids)) && b + |TreesText(kids)| == |s|
    ensures DumpDefinite(s, b)
    decreases kids, 0
  {
    hide Dump, OccursAt, TreeText, IsTree;
    if kids != [] {
      OccursSplit(s, b, TreeText(kids[0]), TreesText(kids[1..]));
      TreeStarts(s, b, kids[0]);
      TreeDumped(s, b, kids[0]);
      FilledDumped(s, b + |TreeText(kids[0])|, kids[1..]);
    }
  }

  lemma {:induction false} KidsDumped(s: seq<byte>, b: nat, kids: seq<Tree>)
    requires AreTrees(kids) && OccursAt(s, b, TreesText(kids) + [0, 0])
    ensures DumpIndefinite(s, b) == Dumped(b + |TreesText(kids)| + 2, KidsLevels(kids))
    decreases kids, 0
  {
    hide Dump, TreeText, IsTree, Levels;
    if kids == [] {
      assert s[b + 0] == ([] + [0, 0])[0] && s[b + 1] == ([] + [0, 0])[1];
    } else {
      hide OccursAt;
      var first, rest := TreeText(kids[0]), TreesText(kids[1..]);
      Regroup(first, rest, [0, 0]);
      OccursSplit(s, b, first, rest + [0, 0]);
      TreeStarts(s, b, kids[0]);
      TreeDumped(s, b, kids[0]);
      KidsDumped(s, b + |first|, kids[1..]);
    }
  }

  // ---- nothing else is

  lemma {:induction false} TreeFound(s: seq<byte>, i: nat) returns (t: Tree)
    requires Dump(s, i).Dumped?
    ensures IsTree(t) && TreeText(t) == s[i..i + Dump(s, i).r]
    decreases |s| - i, 1
  {
    hide Dump, IsTree, TreeText, IsIdentifier, IsLength, TreesText, AreTrees, DumpDefinite, DumpIndefinite,
         IsConstructed;
    var n, cons, m, len := HeadFound(s, i);
    var j, b := i + n, i + n + m;
    if len >= 0 && !cons {
      t := Primitive(s[i..j], s[j..b], s[b..b + len]);
      PrimitiveFound(s, i, j, b, len);
    } else if len >= 0 {
      var kids := FilledFound(s[..b + len], b);
      assert s[..b + len][b..] == s[b..b + len];
      t := Filled(s[i..j], s[j..b], kids);
      FilledIsTree(s, i, j, b, len, kids);
    } else {
      var kids := KidsFound(s, b);
      t := Unmeasured(s[i..j], kids);
      UnmeasuredIsTree(s, i, j, DumpIndefinite(s, b).r, kids);
    }
  }

  lemma PrimitiveFound(s: seq<byte>, i: nat, j: nat, b: nat, len: nat)
    requires i < j < b <= b + len <= |s| && IsIdentifier(s[i..j]) && !IsConstructed(s[i..j])
    requires IsLength(s[j..b], len) && !(s[i] == 0 && s[i + 1] == 0)
    ensures var t := Primitive(s[i..j], s[j..b], s[b..b + len]); IsTree(t) && TreeText(t) == s[i..b + len]
  {
    hide IsIdentifier, IsLength, IsConstructed;
    Cuts(s, i, j, b, b + len);
    FirstOctets(s, i, j, b);
  }

  lemma FilledIsTree(s: seq<byte>, i: nat, j: nat, b: nat, len: nat, kids: seq<Tree>)
    requires i < j < b <= b + len <= |s| && IsIdentifier(s[i..j]) && IsConstructed(s[i..j])
    requires IsLength(s[j..b], len) && AreTrees(kids) && TreesText(kids) == s[b..b + len]
    ensures var t := Filled(s[i..j], s[j..b], kids); IsTree(t) && TreeText(t) == s[i..b + len]
  {
    hide IsIdentifier, IsLength, IsConstructed, AreTrees, TreesText;
    Cuts(s, i, j, b, b + len);
  }

  lemma UnmeasuredIsTree(s: seq<byte>, i: nat, j: nat, end: nat, kids: seq<Tree>)
    requires i < j < end <= |s| && IsIdentifier(s[i..j]) && IsConstructed(s[i..j]) && s[j] == 0x80
    requires AreTrees(kids) && TreesText(kids) + [0, 0] == s[j + 1..end]
    ensures var t := Unmeasured(s[i..j], kids); IsTree(t) && TreeText(t) == s[i..end]
  {
    hide IsIdentifier, IsConstructed, AreTrees, TreesText;
    Cuts(s, i, j, j + 1, end);
    assert s[j..j + 1] == [0x80];
  }

  /** The header of an element that is accepted. */
  lemma HeadFound(s: seq<byte>, i: nat) returns (n: nat, cons: bool, m: nat, len: int)
    requires Dump(s, i).Dumped?
    ensures n >= 1 && m >= 1 && i + n + m <= |s| && IsIdentifier(s[i..i + n]) && IsConstructed(s[i..i + n]) == cons
    ensures !(s[i] == 0 && s[i + 1] == 0)
    ensures len >= 0 ==> IsLength(s[i + n..i + n + m], len) && i + n + m + len <= |s|
    ensures len >= 0 ==> Dump(s, i).r == n + m + len && (cons ==> DumpDefinite(s[..i + n + m + len], i + n + m))
    ensures len < 0 ==> cons && m == 1 && s[i + n] == 0x80 && DumpIndefinite(s, i + n + m).Dumped?
    ensures len < 0 ==> Dump(s, i).r == DumpIndefinite(s, i + n + m).r - i
  {
    hide DecTag, IsIdentifier, IsLength, DumpDefinite, DumpIndefinite, IsConstructed;
    var tag := DecTag(s, i).value;
    n, cons := tag.n, tag.cons;
    DecTagSound(s, i);
    FormBit(s, i);
    var l := DecLen(s, i + n);
    m, len := l.n, l.len;
    if len >= 0 { DecLenSound(s, i + n); }
  }

  lemma Cuts(s: seq<byte>, i: nat, j: nat, b: nat, e: nat)
    requires i <= j <= b <= e <= |s|
    ensures s[i..e] == s[i..j] + (s[j..b] + s[b..e])
  {
  }

  lemma FirstOctets(s: seq<byte>, i: nat, j: nat, b: nat)
    requires i < j < b <= |s| && !(s[i] == 0 && s[i + 1] == 0)
    ensures !(s[i..j] == [0] && s[j..b] == [0])
  {
    assert s[i..j][0] == s[i] && s[j..b][0] == s[j];
    if s[i..j] == [0] { assert |s[i..j]| == 1; }
  }

  lemma {:induction false} FilledFound(s: seq<byte>, b: nat) returns (kids: seq<Tree>)
    requires b <= |s| && DumpDefinite(s, b)
    ensures AreTrees(kids) && TreesText(kids) == s[b..]
    decreases |s| - b, 2
  {
    hide Dump, IsTree, TreeText;
    if b == |s| {
      kids := [];
    } else {
      var first := TreeFound(s, b);
      var c := b + Dump(s, b).r;
      var rest := FilledFound(s, c);
      kids := [first] + rest;
      assert s[b..] == s[b..c] + s[c..];
    }
  }

  lemma {:induction false} KidsFound(s: seq<byte>, b: nat) returns (kids: seq<Tree>)
    requires DumpIndefinite(s, b).Dumped?
    ensures AreTrees(kids) && TreesText(kids) + [0, 0] == s[b..DumpIndefinite(s, b).r]
    decreases |s| - b, 2
  {
    hide Dump, IsTree, TreeText;
    if s[b] == 0 && s[b + 1] == 0 {
      kids := [];
      assert s[b..b + 2] == [0, 0];
    } else {
      var first := TreeFound(s, b);
      var c, end := b + Dump(s, b).r, DumpIndefinite(s, b).r;
      var rest := KidsFound(s, c);
      kids := [first] + rest;
      Regroup(TreeText(first), TreesText(rest), [0, 0]);
      assert s[b..end] == s[b..c] + s[c..end];
    }
  }

  /** The dumper accepts a buffer if and only if it begins with a tree, and then returns its length. */
  lemma DumpsExactlyTrees(s: seq<byte>, r: nat, levels: nat)
    ensures Dump(s, 0) == Dumped(r, levels) <==>
            exists t :: IsTree(t) && OccursAt(s, 0, TreeText(t)) && |TreeText(t)| == r && Levels(t) == levels
  {
    hide Dump, IsTree, TreeText, Levels, OccursAt;
    if Dump(s, 0) == Dumped(r, levels) {
      var t := TreeFound(s, 0);
      OccursHere(s, 0, r, TreeText(t));
      TreeDumped(s, 0, t);
    }
    if t :| IsTree(t) && OccursAt(s, 0, TreeText(t)) && |TreeText(t)| == r && Levels(t) == levels {
      TreeDumped(s, 0, t);
    }
  }
}
