/** The ISO 2709 reader goes by the directory, src/marc_read_iso2709.c:25-214: fields may lie anywhere in the
    data and in any order, and the first entry that leads out of the record ends the reading. */
module MarcDirectory {
  import opened Bytes
  import opened Pieces
  import opened Radix
  import opened Marc
  import opened MarcRoundTrip

  /** A directory entry: a tag, and the length and the start of its field. */
  datatype Slot = Slot(tag: seq<byte>, length: nat, start: nat)

  predicate IsSlot(e: Slot, w1: nat, w2: nat) {
    && |e.tag| == 3 && e.tag[0] != FS
    && e.length < Pow(10, w1) && e.length <= INT_MAX && e.start < Pow(10, w2) && e.start <= INT_MAX
  }

  predicate AreSlots(es: seq<Slot>, w1: nat, w2: nat) { forall k :: 0 <= k < |es| ==> IsSlot(es[k], w1, w2) }

  function SlotText(e: Slot, w1: nat, w2: nat): seq<byte> {
    e.tag + (PadDecimal(w1, e.length) + PadDecimal(w2, e.start))
  }

  function SlotsText(es: seq<Slot>, w1: nat, w2: nat): seq<byte> {
    if es == [] then [] else SlotText(es[0], w1, w2) + SlotsText(es[1..], w1, w2)
  }

  /** The field of an entry is inside the record and not empty. */
  predicate Reaches(e: Slot, base: nat, rl: nat) { e.length > 0 && base + e.start + e.length <= rl }

  /** The entry is that of the field, and the field is where it says. A control field must not look like a data
      field behind its indicator. */
  predicate IsThere(s: seq<byte>, e: Slot, f: Node, lay: Layout) {
    && GoodField(f, lay.indicator) && f.tag == e.tag && |FieldText(f)| == e.length
    && OccursAt(s, lay.base + e.start, FieldText(f))
    && (f.Control? && lay.indicator <= 3 ==>
          var i := lay.base + e.start + lay.indicator; Peek(s, i) != IDFS && Peek(s, i + 1) != IDFS)
  }

  /** The fields of the entries, up to the first entry that has none. */
  predicate AreThere(s: seq<byte>, es: seq<Slot>, fs: seq<Node>, lay: Layout, rl: nat) {
    && |fs| <= |es| && (forall k :: 0 <= k < |fs| ==> Reaches(es[k], lay.base, rl) && IsThere(s, es[k], fs[k], lay))
    && (|fs| < |es| ==> !Reaches(es[|fs|], lay.base, rl))
  }

  lemma SlotAt(s: seq<byte>, p: nat, e: Slot, w1: nat, w2: nat, rest: seq<byte>)
    requires IsSlot(e, w1, w2) && 1 <= w1 && 1 <= w2 && OccursAt(s, p, SlotText(e, w1, w2) + rest)
    ensures var l := 3 + w1 + w2;
            && |SlotText(e, w1, w2)| == l && p + l <= |s| && s[p..p + 3] == e.tag && s[p] != FS
            && AllDigits(s, p + 3, l - 3) && AtoiN(s, p + 3, w1) == e.length && AtoiN(s, p + 3 + w1, w2) == e.start
            && OccursAt(s, p + l, rest)
  {
    hide OccursAt, PadDecimal, AtoiN, Pow;
    var a, b := PadDecimal(w1, e.length), PadDecimal(w2, e.start);
    PadDecimalIs(w1, e.length);
    PadDecimalIs(w2, e.start);
    OccursSplit(s, p, SlotText(e, w1, w2), rest);
    OccursSplit(s, p, e.tag, a + b);
    OccursSplit(s, p + 3, a, b);
    assert s[p] == s[p..p + 3][0];
    NumberAt(s, p + 3, w1, e.length);
    NumberAt(s, p + 3 + w1, w2, e.start);
  }

  /** The first pass. */
  lemma {:induction false} SlotsScanned(s: seq<byte>, rl: nat, p: nat, es: seq<Slot>, w1: nat, w2: nat)
    requires AreSlots(es, w1, w2) && 1 <= w1 && 1 <= w2 && OccursAt(s, p, SlotsText(es, w1, w2) + [FS])
    requires p + |SlotsText(es, w1, w2)| < rl <= |s|
    ensures DirEnd(s, rl, p, 3 + w1 + w2) == Some((p + |SlotsText(es, w1, w2)|, false))
    decreases |es|
  {
    hide OccursAt, SlotText, IsSlot, AllDigits, AtoiN;
    if es == [] {
      assert [] + [FS] == [FS];
      OccursOne(s, p, FS);
    } else {
      var rest := SlotsText(es[1..], w1, w2);
      Regroup(SlotText(es[0], w1, w2), rest, [FS]);
      SlotAt(s, p, es[0], w1, w2, rest + [FS]);
      SlotsScanned(s, rl, p + 3 + w1 + w2, es[1..], w1, w2);
    }
  }

  lemma OneField(s: seq<byte>, e: Slot, f: Node, lay: Layout, rl: nat)
    requires IsThere(s, e, f, lay) && Reaches(e, lay.base, rl) && rl <= |s|
    ensures |e.tag| == 3
    ensures var i := lay.base + e.start; ReadField(s, e.tag, lay.indicator, i, i + e.length - 1) == [f]
  {
    hide OccursAt, ReadField, FieldText, GoodField;
    var i := lay.base + e.start;
    FieldShape(f, lay.indicator);
    if f.Control? {
      ControlTag(f, lay.indicator);
      FlagIsNone(s, f.tag, lay.indicator, i);
      ReadControl(s, i, f, lay.indicator);
    } else {
      IsData(f, lay.indicator);
      ReadData(s, i, f, lay.indicator);
    }
  }

  lemma ControlTag(f: Node, indicator: nat)
    requires GoodField(f, indicator) && f.Control?
    ensures |f.tag| == 3 && f.tag[0] == 48 && f.tag[1] == 48
  {
  }

  lemma IsData(f: Node, indicator: nat)
    requires GoodField(f, indicator) && !f.Control?
    ensures f.Data?
  {
  }

  lemma FlagIsNone(s: seq<byte>, tag: seq<byte>, indicator: nat, i: nat)
    requires |tag| == 3 && tag[0] == 48 && tag[1] == 48
    requires indicator <= 3 ==> Peek(s, i + indicator) != IDFS && Peek(s, i + indicator + 1) != IDFS
    ensures IdentifierFlag(s, tag, indicator, i) == 0
  {
  }

  /** The second pass. */
  lemma {:induction false} SlotsRead(s: seq<byte>, rl: nat, p: nat, es: seq<Slot>, fs: seq<Node>, lay: Layout)
    requires AreSlots(es, lay.entry, lay.starting) && 1 <= lay.entry && 1 <= lay.starting && rl <= |s|
    requires OccursAt(s, p, SlotsText(es, lay.entry, lay.starting) + [FS])
    requires p + |SlotsText(es, lay.entry, lay.starting)| <= rl && AreThere(s, es, fs, lay, rl)
    ensures Fields(s, rl, lay, p, p + |SlotsText(es, lay.entry, lay.starting)|) ==
              fs + (if |fs| < |es| && es[|fs|].length > 0 then [Comment] else [])
    decreases |es|
  {
    hide OccursAt, SlotText, IsSlot, AllDigits, AtoiN, ReadField, IsThere, Fields;
    var w1, w2 := lay.entry, lay.starting;
    var dirEnd := p + |SlotsText(es, w1, w2)|;
    if es == [] {
      NoEntry(s, rl, lay, p);
      assert fs + [] == [];
    } else {
      var rest := SlotsText(es[1..], w1, w2);
      Regroup(SlotText(es[0], w1, w2), rest, [FS]);
      SlotAt(s, p, es[0], w1, w2, rest + [FS]);
      if fs == [] {
        EntryEnds(s, rl, lay, p, dirEnd, es[0]);
      } else {
        OneField(s, es[0], fs[0], lay, rl);
        EntryGoesOn(s, rl, lay, p, dirEnd, es[0], fs[0]);
        RestAreThere(s, es, fs, lay, rl);
        SlotsRead(s, rl, p + 3 + w1 + w2, es[1..], fs[1..], lay);
        var tail := if |fs| < |es| && es[|fs|].length > 0 then [Comment] else [];
        assert |fs| < |es| ==> es[1..][|fs[1..]|] == es[|fs|];
        assert fs == [fs[0]] + fs[1..];
        Regroup([fs[0]], fs[1..], tail);
      }
    }
  }

  lemma NoEntry(s: seq<byte>, rl: nat, lay: Layout, p: nat)
    requires p <= rl <= |s|
    ensures Fields(s, rl, lay, p, p) == []
  {
  }

  lemma EntryEnds(s: seq<byte>, rl: nat, lay: Layout, p: nat, dirEnd: nat, e: Slot)
    requires dirEnd <= rl <= |s| && p + 3 + lay.entry + lay.starting <= dirEnd && !Reaches(e, lay.base, rl)
    requires AtoiN(s, p + 3, lay.entry) == e.length && AtoiN(s, p + 3 + lay.entry, lay.starting) == e.start
    ensures Fields(s, rl, lay, p, dirEnd) == if e.length > 0 then [Comment] else []
  {
    hide AtoiN, ReadField;
  }

  lemma EntryGoesOn(s: seq<byte>, rl: nat, lay: Layout, p: nat, dirEnd: nat, e: Slot, f: Node)
    requires dirEnd <= rl <= |s| && p + 3 + lay.entry + lay.starting <= dirEnd && Reaches(e, lay.base, rl)
    requires AtoiN(s, p + 3, lay.entry) == e.length && AtoiN(s, p + 3 + lay.entry, lay.starting) == e.start
    requires |e.tag| == 3 && s[p..p + 3] == e.tag
    requires var i := lay.base + e.start; ReadField(s, e.tag, lay.indicator, i, i + e.length - 1) == [f]
    ensures Fields(s, rl, lay, p, dirEnd) == [f] + Fields(s, rl, lay, p + 3 + lay.entry + lay.starting, dirEnd)
  {
    hide AtoiN, ReadField;
  }

  lemma RestAreThere(s: seq<byte>, es: seq<Slot>, fs: seq<Node>, lay: Layout, rl: nat)
    requires es != [] && fs != [] && AreThere(s, es, fs, lay, rl)
    ensures AreThere(s, es[1..], fs[1..], lay, rl)
  {
    hide IsThere, Reaches;
    forall k | 0 <= k < |fs| - 1 ensures Reaches(es[1..][k], lay.base, rl) && IsThere(s, es[1..][k], fs[1..][k], lay) {
      assert es[1..][k] == es[k + 1] && fs[1..][k] == fs[k + 1];
    }
  }

  /** Every record with a good leader and a directory, whatever is behind them: the fields are read where the
      directory says and in its order, up to the first entry that is empty or leads out of the record. There is
      a comment if the declared base address is not where the directory ends, and one for an entry that leads
      out. */
  lemma ReadByDirectory(s: seq<byte>, rl: nat, base: nat, es: seq<Slot>, fs: seq<Node>)
    requires 25 <= rl <= |s| && AllDigits(s, 0, 5) && AtoiN(s, 0, 5) == rl
    requires GoodLeader(s[..24]) && AllDigits(s, 12, 5) && AtoiN(s, 12, 5) == base
    requires var lay := LayoutOf(s[..24], base);
             var dir := SlotsText(es, lay.entry, lay.starting);
             && AreSlots(es, lay.entry, lay.starting) && OccursAt(s, 24, dir + [FS]) && 24 + |dir| < rl
             && AreThere(s, es, fs, lay, rl)
    ensures var lay := LayoutOf(s[..24], base);
            var dir := SlotsText(es, lay.entry, lay.starting);
            Read(s) == Outcome(rl, [Leader(s[..24])] + (if base != 25 + |dir| then [Comment] else []) +
                                   (fs + (if |fs| < |es| && es[|fs|].length > 0 then [Comment] else [])))
  {
    hide OccursAt, AtoiN, AllDigits, SetLeader, DirEnd, Fields, AreSlots, AreThere, SlotsText, IsAsciiText;
    var lay := LayoutOf(s[..24], base);
    var dir := SlotsText(es, lay.entry, lay.starting);
    SetGoodLeader(s, base);
    SlotsScanned(s, rl, 24, es, lay.entry, lay.starting);
    SlotsRead(s, rl, 24, es, fs, lay);
    assert Comments(0) == [];
    assert [] + [Leader(s[..24])] + [] == [Leader(s[..24])];
  }
}
