/** The MARC handle of src/marcdisp.c with the node list that reader and writer work on. */
module MarcHandle {
  import opened Bytes
  import opened Marc
  import opened Pieces

  class Handle {
    var nodes: seq<Node>
    /** Where the next subfield goes: the index of the current data field, or -1. */
    var current: int

    ghost predicate Valid()
      reads this
    {
      -1 <= current < |nodes| && (current >= 0 ==> nodes[current].Data?)
    }

    constructor ()
      ensures Valid() && nodes == [] && current == -1
    {
      nodes, current := [], -1;
    }

    /** yaz_marc_reset. */
    method Reset()
      modifies this
      ensures Valid() && nodes == [] && current == -1
    {
      nodes, current := [], -1;
    }

    /** yaz_marc_add_leader, yaz_marc_add_controlfield and yaz_marc_add_comment. */
    method AddNode(n: Node)
      requires Valid()
      modifies this`nodes
      ensures Valid() && nodes == old(nodes) + [n]
    {
      nodes := nodes + [n];
    }

    method AddComments(n: nat)
      requires Valid()
      modifies this`nodes
      ensures Valid() && nodes == old(nodes) + Comments(n)
    {
      var i := 0;
      while i < n
        invariant 0 <= i <= n && Valid() && nodes == old(nodes) + Comments(i)
      {
        assert Comments(i) + [Comment] == Comments(i + 1);
        AddNode(Comment);
        i := i + 1;
      }
    }

    /** yaz_marc_add_datafield. */
    method AddDatafield(tag: seq<byte>, indicator: seq<byte>)
      requires Valid()
      modifies this
      ensures Valid() && nodes == old(nodes) + [Data(tag, indicator, [])] && current == |old(nodes)|
    {
      nodes := nodes + [Data(tag, indicator, [])];
      current := |nodes| - 1;
    }

    /** yaz_marc_add_subfield: appends to the current data field, if there is one. */
    method AddSubfield(text: seq<byte>)
      requires Valid()
      modifies this`nodes
      ensures Valid()
      ensures current < 0 ==> nodes == old(nodes)
      ensures current >= 0 ==>
                var n := old(nodes)[current];
                nodes == old(nodes)[current := n.(subfields := n.subfields + [text])]
    {
      if current >= 0 {
        var n := nodes[current];
        nodes := nodes[current := n.(subfields := n.subfields + [text])];
      }
    }

    // ---- writer

    /** The last leader node. */
    method LeaderLoop() returns (leader: Option<seq<byte>>)
      ensures leader == FindLeader(nodes)
    {
      leader := None;
      var i := 0;
      while i < |nodes|
        invariant 0 <= i <= |nodes| && leader == FindLeader(nodes[..i])
      {
        assert nodes[..i + 1][..i] == nodes[..i];
        if nodes[i].Leader? {
          leader := Some(nodes[i].text);
        }
        i := i + 1;
      }
      assert nodes[..i] == nodes;
    }

    /** yaz_marc_write_iso2709: None stands for the return code -1. */
    method WriteIso2709() returns (out: Option<seq<byte>>)
      ensures out == Write(nodes)
    {
      hide FieldTexts, MakePlan, FindLeader, Head;
      var leader := LeaderLoop();
      if leader.None? {
        return None;
      }
      var l := leader.value;
      if |l| < 24 || LeaderDigit(l, 10).None? || LeaderDigit(l, 11).None? || LeaderDigit(l, 20).None?
         || LeaderDigit(l, 21).None? || LeaderDigit(l, 22).None? {
        return None;
      }
      var dir, offset, cap := PlanLoop(nodes, LeaderDigit(l, 20).value, LeaderDigit(l, 21).value);
      var base := 24 + |dir| + 1;
      var head := Head(l, base + offset + 1, base);
      var wr := (if |head| > 24 then head[..24] else head) + dir + [FS];
      var data := DataLoop(nodes[..cap]);
      return Some(wr + data + [RS]);
    }

    // ---- reader

    /** yaz_marc_read_iso2709. */
    method ReadIso2709(buf: seq<byte>) returns (rc: int)
      modifies this
      ensures Valid() && rc == Read(buf).rc && nodes == Read(buf).nodes
    {
      hide SetLeader, DirEnd, Fields, AtoiN;
      Reset();
      if |buf| < 5 || !AllDigits(buf, 0, 5) {
        AddNode(Comment);
        return -1;
      }
      var rl := AtoiN(buf, 0, 5);
      if rl < 25 || rl > |buf| {
        AddNode(Comment);
        return -1;
      }
      var (draft, lay) := SetLeader(buf);
      AddComments(draft.comments);
      AddNode(Leader(draft.leader));
      ghost var start := nodes;
      assert start == Comments(draft.comments) + [Leader(draft.leader)];
      var end, bad := DirectoryLoop(buf, rl, 3 + lay.entry + lay.starting);
      if end == 0 {
        AddNode(Comment);
        return -1;
      }
      if bad {
        AddNode(Comment);
      }
      if lay.base != end + 1 {
        AddNode(Comment);
      }
      FieldLoop(buf, rl, lay, end);
      return rl;
    }

    /** The second pass. */
    method FieldLoop(buf: seq<byte>, rl: nat, lay: Layout, dirEnd: nat)
      requires Valid() && rl <= |buf| && 24 <= dirEnd <= rl && lay.entry >= 3
      requires Steps(24, dirEnd, 3 + lay.entry + lay.starting)
      modifies this
      ensures Valid() && nodes == old(nodes) + Fields(buf, rl, lay, 24, dirEnd)
    {
      hide ReadField, AtoiN;
      var p := 24;
      ghost var start := nodes;
      while p != dirEnd
        invariant Valid() && 24 <= p <= dirEnd && Steps(p, dirEnd, 3 + lay.entry + lay.starting)
        invariant nodes + Fields(buf, rl, lay, p, dirEnd) == start + Fields(buf, rl, lay, 24, dirEnd)
        decreases dirEnd - p
      {
        ghost var before := nodes;
        var tag := buf[p..p + 3];
        var len := AtoiN(buf, p + 3, lay.entry);
        var i := AtoiN(buf, p + 3 + lay.entry, lay.starting) + lay.base;
        if len == 0 {
          return;
        }
        if i + len - 1 >= rl {
          AddNode(Comment);
          return;
        }
        OneField(buf, tag, lay.indicator, i, i + len - 1);
        p := p + 3 + lay.entry + lay.starting;
        assert nodes + Fields(buf, rl, lay, p, dirEnd)
            == before + (ReadField(buf, tag, lay.indicator, i, i + len - 1) + Fields(buf, rl, lay, p, dirEnd));
      }
    }

    /** One directory entry: its field and the comments about it. */
    method OneField(buf: seq<byte>, tag: seq<byte>, indicator: nat, start: nat, end: nat)
      requires Valid() && |tag| == 3 && start <= end < |buf|
      modifies this
      ensures Valid() && nodes == old(nodes) + ReadField(buf, tag, indicator, start, end)
    {
      hide Subfields, Find, IdentifierFlag, Trouble;
      var flag := IdentifierFlag(buf, tag, indicator, start);
      var stop;
      ghost var field;
      if flag > 0 {
        stop, field := OneDatafield(buf, tag, start + flag - 1, indicator, end);
      } else {
        stop := FindLoop(buf, start, end, EndsField);
        AddNode(Control(tag, buf[start..stop]));
        field := Control(tag, buf[start..stop]);
      }
      ghost var before := nodes;
      AddTrouble(buf, stop, end);
      assert before + Trouble(buf, stop, end) == old(nodes) + ([field] + Trouble(buf, stop, end));
    }

    /** A data field that begins at `i1`, with its subfields. */
    method OneDatafield(buf: seq<byte>, tag: seq<byte>, i1: nat, indicator: nat, end: nat)
      returns (stop: nat, ghost field: Node)
      requires Valid() && i1 <= end + 1 && end < |buf|
      modifies this
      ensures Valid() && nodes == old(nodes) + [field]
      ensures
        var i2 := i1 + indicator;
        var (subs, e) := Subfields(buf, i2, i2 + 1, end);
        stop == e && field == Data(tag, buf[i1..if i2 <= |buf| then i2 else |buf|], subs)
    {
      hide Subfields;
      var i2 := i1 + indicator;
      AddDatafield(tag, buf[i1..if i2 <= |buf| then i2 else |buf|]);
      stop := SubfieldLoop(buf, i2, end);
      field := nodes[|nodes| - 1];
    }

    /** The comments about where a field ends. */
    method AddTrouble(buf: seq<byte>, stop: nat, end: nat)
      requires Valid()
      modifies this`nodes
      ensures Valid() && nodes == old(nodes) + Trouble(buf, stop, end)
    {
      if stop < end {
        AddNode(Comment);
      }
      if !EndsField(Peek(buf, stop)) {
        AddNode(Comment);
      }
    }

    /** The subfields of the data field that was just added. */
    method SubfieldLoop(buf: seq<byte>, start: nat, end: nat) returns (i: nat)
      requires Valid() && nodes != [] && current == |nodes| - 1 && nodes[current].subfields == []
      requires end < |buf|
      modifies this`nodes
      ensures Valid() && |nodes| == |old(nodes)|
      ensures
        var (subs, stop) := Subfields(buf, start, start + 1, end);
        i == stop && nodes == old(nodes)[current := old(nodes)[current].(subfields := subs)]
    {
      hide Subfields, EndsField;
      i := start;
      var code: nat := i + 1;
      ghost var got: seq<seq<byte>> := [];
      assert [] + Subfields(buf, i, code, end).0 == Subfields(buf, i, code, end).0;
      while i < end && !EndsField(buf[i])
        invariant start <= i && code <= i + 1 && (start <= end ==> i <= end)
        invariant Valid()
        invariant nodes == old(nodes)[current := old(nodes)[current].(subfields := got)]
        invariant got + Subfields(buf, i, code, end).0 == Subfields(buf, start, start + 1, end).0
        invariant Subfields(buf, i, code, end).1 == Subfields(buf, start, start + 1, end).1
        decreases end - i
      {
        SubfieldsStep(buf, i, code, end);
        if buf[i] == IDFS && i < end - 1 && buf[i + 1] > 32 {
          if i > code {
            Regroup(got, [buf[code..i]], Subfields(buf, i + 1, i + 1, end).0);
            AddSubfield(buf[code..i]);
            got := got + [buf[code..i]];
          }
          code := i + 1;
        }
        i := i + 1;
      }
      SubfieldsStep(buf, i, code, end);
      if i > code && i <= |buf| {
        AddSubfield(buf[code..i]);
        got := got + [buf[code..i]];
      } else {
        assert got + [] == got;
      }
    }
  }

  /** The first pass of the writer. */
  method PlanLoop(ns: seq<Node>, w1: nat, w2: nat) returns (dir: seq<byte>, offset: nat, cap: nat)
    ensures Plan(dir, offset, cap) == MakePlan(ns, w1, w2, [], 0)
  {
    hide Entry, FieldText;
    dir, offset, cap := [], 0, 0;
    while cap < |ns|
      invariant 0 <= cap <= |ns|
      invariant
        var plan := MakePlan(ns[cap..], w1, w2, dir, offset);
        plan.(kept := plan.kept + cap) == MakePlan(ns, w1, w2, [], 0)
    {
      var n := ns[cap];
      assert ns[cap..][1..] == ns[cap + 1..];
      var len := LengthLoop(n);
      if IsField(n) {
        if |dir| + 40 + offset + len > MAX_RECORD {
          return;
        }
        dir := dir + Entry(n, w1, w2, offset);
        offset := offset + len;
      }
      cap := cap + 1;
    }
  }

  /** The length of a field, measured on dummy octets. */
  method LengthLoop(n: Node) returns (len: nat)
    ensures len == |FieldText(n)|
  {
    match n
    case Control(_, data) =>
      len := |data| + 1;
    case Data(_, indicator, subfields) =>
      len := |indicator|;
      var k := 0;
      while k < |subfields|
        invariant 0 <= k <= |subfields|
        invariant len + |SubfieldText(subfields[k..])| == |indicator| + |SubfieldText(subfields)|
      {
        assert subfields[k..][1..] == subfields[k + 1..];
        len := len + 1 + |subfields[k]|;
        k := k + 1;
      }
      len := len + 1;
    case _ =>
      len := 0;
  }

  /** The second pass of the writer. */
  method DataLoop(ns: seq<Node>) returns (out: seq<byte>)
    ensures out == FieldTexts(ns)
  {
    hide FieldText;
    out := [];
    var k := 0;
    while k < |ns|
      invariant 0 <= k <= |ns|
      invariant out + FieldTexts(ns[k..]) == FieldTexts(ns)
    {
      assert ns[k..][1..] == ns[k + 1..];
      assert out + (FieldText(ns[k]) + FieldTexts(ns[k + 1..])) == (out + FieldText(ns[k])) + FieldTexts(ns[k + 1..]);
      out := out + FieldText(ns[k]);
      k := k + 1;
    }
    assert out + [] == out;
  }

  /** The first pass of the reader; 0 if the directory does not end. */
  method DirectoryLoop(buf: seq<byte>, rl: nat, l: nat) returns (p: nat, bad: bool)
    requires 24 < rl <= |buf| && l >= 3
    ensures DirEnd(buf, rl, 24, l) == if p == 0 then None else Some((p, bad))
  {
    hide AllDigits;
    p, bad := 24, false;
    while buf[p] != FS
      invariant 24 <= p < rl && DirEnd(buf, rl, p, l) == DirEnd(buf, rl, 24, l)
      decreases rl - p
    {
      if p + l >= rl {
        return 0, false;
      }
      if !AllDigits(buf, p + 3, l - 3) {
        return p, true;
      }
      p := p + l;
    }
  }

  /** One octet of the loop over subfields. */
  lemma SubfieldsStep(s: seq<byte>, i: nat, code: nat, end: nat)
    requires code <= i + 1 && end <= |s|
    ensures !(i < end && !EndsField(s[i])) ==>
              Subfields(s, i, code, end) == (if code < i <= |s| then [s[code..i]] else [], i)
    ensures i < end && !EndsField(s[i]) && s[i] == IDFS && i < end - 1 && s[i + 1] > 32 ==>
              var rest := Subfields(s, i + 1, i + 1, end);
              Subfields(s, i, code, end) == (if i > code then ([s[code..i]] + rest.0, rest.1) else rest)
    ensures i < end && !EndsField(s[i]) && !(s[i] == IDFS && i < end - 1 && s[i + 1] > 32) ==>
              Subfields(s, i, code, end) == Subfields(s, i + 1, code, end)
  {
    hide EndsField;
    if i < end { assert [] + Subfields(s, i + 1, i + 1, end).0 == Subfields(s, i + 1, i + 1, end).0; }
  }
}
