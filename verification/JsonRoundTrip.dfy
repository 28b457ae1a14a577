/** Parsing undoes printing, in the compact and in the pretty form, exactly for trees that are not nested too
    deep, src/json.c: what is printed is a text of the grammar. */
module JsonRoundTrip {
  import opened Bytes
  import opened Pieces
  import opened Atoin
  import opened Json
  import opened JsonStrings
  import opened JsonGrammar

  // ---- strings

  predicate NulFreeText(t: seq<byte>) { forall k :: 0 <= k < |t| ==> t[k] != 0 }

  /** The item that an octet is printed as. */
  function ItemFor(b: byte): Item {
    if b == QUOTE || b == BACKSLASH then Short(b)
    else if b == 8 then Short(98)
    else if b == 12 then Short(102)
    else if b == 10 then Short(110)
    else if b == 13 then Short(114)
    else if b == 9 then Short(116)
    else if b < 32 then Unicode([48, 48, HexDigit(b / 16), HexDigit(b % 16)])
    else Plain(b)
  }

  lemma ItemPrinted(b: byte)
    requires b != 0
    ensures IsItem(ItemFor(b)) && ItemText(ItemFor(b)) == Escaped(b) && ItemValue(ItemFor(b)) == [b]
  {
    var x := ItemFor(b);
    if x.Unicode? {
      FourDigits(x.digits);
      assert IsNumeral(16, x.digits) && Numeral(16, x.digits) == b;
    }
  }

  function ItemsFor(t: seq<byte>): seq<Item> {
    if t == [] then [] else [ItemFor(t[0])] + ItemsFor(t[1..])
  }

  lemma {:induction false} ItemsPrinted(t: seq<byte>)
    requires NulFreeText(t)
    ensures AreItems(ItemsFor(t)) && Literal(ItemsFor(t)) == EscapedText(t) && LiteralValue(ItemsFor(t)) == t
  {
    hide ItemFor, ItemText, ItemValue, Escaped, IsItem;
    if t != [] {
      var x, rest := ItemFor(t[0]), ItemsFor(t[1..]);
      ItemPrinted(t[0]);
      ItemsPrinted(t[1..]);
      assert ItemsFor(t)[0] == x && ItemsFor(t)[1..] == rest;
      assert t == [t[0]] + t[1..];
    }
  }

  lemma StringPrinted(t: seq<byte>)
    requires NulFreeText(t)
    ensures AreItems(ItemsFor(t)) && JsonGrammar.Quoted(ItemsFor(t)) == Json.Quoted(t) && LiteralValue(ItemsFor(t)) == t
  {
    hide AreItems, Literal, LiteralValue, EscapedText, ItemsFor;
    ItemsPrinted(t);
    Regroup([QUOTE], EscapedText(t), [QUOTE]);
  }

  // ---- trees

  /** A number of the grammar. */
  ghost predicate IsNumberText(t: seq<byte>) { exists n :: IsNum(n) && NumText(n) == t }

  ghost function NumOf(t: seq<byte>): (n: Num)
    requires IsNumberText(t)
    ensures IsNum(n) && NumText(n) == t
  {
    var n :| IsNum(n) && NumText(n) == t;
    n
  }

  /** No string or key holds a NUL, and every number is printed as a number. */
  ghost predicate Writable(v: Node, f: Format)
    decreases v
  {
    match v
    case Object(ms) => forall m <- ms :: NulFreeText(m.key) && Writable(m.value, f)
    case Array(es) => forall e <- es :: Writable(e, f)
    case String(t) => NulFreeText(t)
    case Number(t) => IsNumberText(f(t))
    case _ => true
  }

  /** The tree with its numbers as they are printed. */
  function Printed(v: Node, f: Format): Node
    decreases v, 0
  {
    match v
    case Object(ms) => Object(PrintedMembers(ms, f))
    case Array(es) => Array(PrintedElements(es, f))
    case Number(t) => Number(f(t))
    case _ => v
  }

  function PrintedElements(es: seq<Node>, f: Format): seq<Node>
    decreases es, 1
  {
    if es == [] then [] else [Printed(es[0], f)] + PrintedElements(es[1..], f)
  }

  function PrintedMembers(ms: seq<Member>, f: Format): seq<Member>
    decreases ms, 1
  {
    if ms == [] then [] else [Member(ms[0].key, Printed(ms[0].value, f))] + PrintedMembers(ms[1..], f)
  }

  // ---- what is printed is a text of the grammar

  /** The value that is printed. */
  ghost function Concrete(v: Node, indent: int, f: Format): Val
    requires Writable(v, f)
    decreases v, 0
  {
    var sub := SubIndent(indent);
    match v
    case Object(ms) =>
      Record([], if ms == [] then [] else ConcretePairs(ms, Break(indent, sub), sub, false, Break(indent, indent), f))
    case Array(es) =>
      List([], if es == [] then [] else ConcreteCells(es, Break(indent, 0), sub, indent >= 0, Break(indent, indent), f))
    case String(t) => JsonGrammar.Text(ItemsFor(t))
    case Number(t) => Figure(NumOf(f(t)))
    case _ => Word(v)
  }

  /** Elements with `gap` in front of the first and `tail` behind the last. */
  ghost function ConcreteCells(es: seq<Node>, gap: seq<byte>, indent: int, start: bool, tail: seq<byte>, f: Format)
      : (cs: seq<Cell>)
    requires es != [] && forall e <- es :: Writable(e, f)
    ensures |cs| == |es|
    decreases es, 1
  {
    var last := |es| == 1;
    [Cell(gap + Lead(es[0], indent, start), Concrete(es[0], indent, f), if last then tail else [])]
    + (if last then [] else ConcreteCells(es[1..], Break(indent, 0), indent, indent >= 0, tail, f))
  }

  ghost function ConcretePairs(ms: seq<Member>, gap: seq<byte>, indent: int, start: bool, tail: seq<byte>, f: Format)
      : (ps: seq<Pair>)
    requires ms != [] && forall m <- ms :: NulFreeText(m.key) && Writable(m.value, f)
    ensures |ps| == |ms|
    decreases ms, 1
  {
    var m, last := ms[0], |ms| == 1;
    var cell := Cell(if indent >= 0 then [SPACE] else [], Concrete(m.value, indent, f), if last then tail else []);
    [Pair(gap + MemberLead(indent, start), ItemsFor(m.key), [], cell)]
    + (if last then [] else ConcretePairs(ms[1..], Break(indent, 0), indent, indent >= 0, tail, f))
  }

  lemma {:induction false} SpacesBlank(n: int)
    ensures AreBlanks(Spaces(n))
    decreases if n > 0 then n else 0
  {
    if n > 0 { SpacesBlank(n - 1); }
  }

  lemma BreakBlank(indent: int, spaces: int)
    ensures AreBlanks(Break(indent, spaces))
  {
    SpacesBlank(spaces);
  }

  lemma LeadsBlank(v: Node, indent: int, start: bool)
    ensures AreBlanks(Lead(v, indent, start)) && AreBlanks(MemberLead(indent, start))
  {
    SpacesBlank(indent);
  }

  /** It is of the grammar, it is spelled as it is printed, and it stands for the tree as printed. */
  lemma {:induction false} ConcretePrinted(v: Node, indent: int, f: Format)
    requires Writable(v, f)
    ensures var c := Concrete(v, indent, f);
            IsVal(c) && ValText(c) == Body(v, indent, f) && TreeOf(c) == Printed(v, f)
    decreases v, 0
  {
    hide Break, ElementsText, MembersText, ConcreteCells, ConcretePairs, AreCells, ArePairs, CellsText, PairsText,
         TreesOf, MembersOf, AreItems, Literal, LiteralValue, ItemsFor, IsNum, NumText;
    var sub := SubIndent(indent);
    match v
    case Object(ms) => {
      if ms == [] {
        assert [123] + ([] + [125]) == [123, 125];
      } else {
        var gap, tail := Break(indent, sub), Break(indent, indent);
        BreakBlank(indent, sub);
        BreakBlank(indent, indent);
        PairsPrinted(ms, gap, sub, false, tail, f);
        FiveParts([123], gap, MembersText(ms, sub, false, f), tail, [125]);
      }
    }
    case Array(es) => {
      if es == [] {
        assert [91] + ([] + [93]) == [91, 93];
      } else {
        var gap, tail := Break(indent, 0), Break(indent, indent);
        BreakBlank(indent, 0);
        BreakBlank(indent, indent);
        CellsPrinted(es, gap, sub, indent >= 0, tail, f);
        FiveParts([91], gap, ElementsText(es, sub, indent >= 0, f), tail, [93]);
      }
    }
    case String(t) => StringPrinted(t);
    case _ => {}
  }

  lemma FiveParts(a: seq<byte>, b: seq<byte>, c: seq<byte>, d: seq<byte>, e: seq<byte>)
    ensures a + ((b + (c + d)) + e) == a + b + c + d + e
  {
  }

  lemma {:induction false} CellsPrinted(
    es: seq<Node>, gap: seq<byte>, indent: int, start: bool, tail: seq<byte>, f: Format)
    requires es != [] && (forall e <- es :: Writable(e, f)) && AreBlanks(gap) && AreBlanks(tail)
    ensures var cs := ConcreteCells(es, gap, indent, start, tail, f);
            && AreCells(cs) && CellsText(cs) == gap + (ElementsText(es, indent, start, f) + tail)
            && TreesOf(cs) == PrintedElements(es, f)
    decreases es, 1
  {
    hide Break, Lead, Body, Concrete, IsVal, ValText, TreeOf, Printed, Writable, AreBlanks;
    var e, lead, body := es[0], Lead(es[0], indent, start), Body(es[0], indent, f);
    var cs := ConcreteCells(es, gap, indent, start, tail, f);
    ConcretePrinted(e, indent, f);
    LeadsBlank(e, indent, start);
    BlanksJoin(gap, lead);
    if |es| == 1 {
      assert cs == [cs[0]] + [];
      CellsCons(cs[0], []);
      assert es[1..] == [];
      LastCell(gap, lead, body, tail);
    } else {
      var rest, gap' := es[1..], Break(indent, 0);
      BreakBlank(indent, 0);
      BlanksNone();
      CellsPrinted(rest, gap', indent, indent >= 0, tail, f);
      var ds := ConcreteCells(rest, gap', indent, indent >= 0, tail, f);
      assert cs == [cs[0]] + ds;
      CellsCons(cs[0], ds);
      CellsMore(ds);
      NextCell(gap, lead, body, gap', ElementsText(rest, indent, indent >= 0, f), tail);
    }
  }

  lemma BlanksJoin(a: seq<byte>, b: seq<byte>)
    requires AreBlanks(a) && AreBlanks(b)
    ensures AreBlanks(a + b)
  {
  }

  lemma BlanksNone()
    ensures AreBlanks([])
  {
  }

  lemma CellsMore(cs: seq<Cell>)
    requires AreCells(cs) && cs != []
    ensures MoreCellsText(cs) == [44] + CellsText(cs)
  {
  }

  lemma LastCell(gap: seq<byte>, lead: seq<byte>, body: seq<byte>, tail: seq<byte>)
    ensures (gap + lead) + (body + tail) + [] == gap + ((lead + body + []) + tail)
  {
  }

  lemma NextCell(gap: seq<byte>, lead: seq<byte>, body: seq<byte>, gap': seq<byte>, rest: seq<byte>, tail: seq<byte>)
    ensures (gap + lead) + (body + []) + ([44] + (gap' + (rest + tail)))
         == gap + ((lead + body + ([44] + gap' + rest)) + tail)
  {
  }

  lemma {:induction false} PairsPrinted(ms: seq<Member>, gap: seq<byte>, indent: int, start: bool, tail: seq<byte>,
      f: Format)
    requires ms != [] && (forall m <- ms :: NulFreeText(m.key) && Writable(m.value, f))
    requires AreBlanks(gap) && AreBlanks(tail)
    ensures var ps := ConcretePairs(ms, gap, indent, start, tail, f);
            && ArePairs(ps) && PairsText(ps) == gap + (MembersText(ms, indent, start, f) + tail)
            && MembersOf(ps) == PrintedMembers(ms, f)
    decreases ms, 1
  {
    hide Break, MemberLead, Body, Concrete, IsVal, ValText, TreeOf, Printed, Writable, AreBlanks, NulFreeText, AreItems,
         LiteralValue, ItemsFor, JsonGrammar.Quoted, Json.Quoted;
    var m, lead, body := ms[0], MemberLead(indent, start), Body(ms[0].value, indent, f);
    var ps := ConcretePairs(ms, gap, indent, start, tail, f);
    var blank: seq<byte> := if indent >= 0 then [SPACE] else [];
    ConcretePrinted(m.value, indent, f);
    StringPrinted(m.key);
    LeadsBlank(m.value, indent, start);
    BlanksJoin(gap, lead);
    BlanksNone();
    OneBlank(indent);
    if |ms| == 1 {
      assert ps == [ps[0]] + [];
      PairsCons(ps[0], []);
      assert ms[1..] == [];
      LastPair(gap, lead, Json.Quoted(m.key), blank, body, tail);
    } else {
      var rest, gap' := ms[1..], Break(indent, 0);
      BreakBlank(indent, 0);
      PairsPrinted(rest, gap', indent, indent >= 0, tail, f);
      var qs := ConcretePairs(rest, gap', indent, indent >= 0, tail, f);
      assert ps == [ps[0]] + qs;
      PairsCons(ps[0], qs);
      PairsMore(qs);
      NextPair(gap, lead, Json.Quoted(m.key), blank, body, gap', MembersText(rest, indent, indent >= 0, f), tail);
    }
  }

  lemma OneBlank(indent: int)
    ensures AreBlanks(if indent >= 0 then [SPACE] else [])
  {
  }

  lemma PairsMore(ps: seq<Pair>)
    requires ArePairs(ps) && ps != []
    ensures MorePairsText(ps) == [44] + PairsText(ps)
  {
  }

  lemma LastPair(gap: seq<byte>, lead: seq<byte>, key: seq<byte>, blank: seq<byte>, body: seq<byte>, tail: seq<byte>)
    ensures (gap + lead) + (key + ([] + ([58] + (blank + (body + tail))))) + []
         == gap + ((lead + (key + [58] + blank + body) + []) + tail)
  {
  }

  lemma NextPair(gap: seq<byte>, lead: seq<byte>, key: seq<byte>, blank: seq<byte>, body: seq<byte>, gap': seq<byte>,
      rest: seq<byte>, tail: seq<byte>)
    ensures (gap + lead) + (key + ([] + ([58] + (blank + (body + []))))) + ([44] + (gap' + (rest + tail)))
         == gap + ((lead + (key + [58] + blank + body) + ([44] + gap' + rest)) + tail)
  {
  }

  // ---- main result

  /** Every number is printed as the text it was read from. */
  predicate Canonical(v: Node, f: Format)
    decreases v
  {
    match v
    case Object(ms) => forall m <- ms :: Canonical(m.value, f)
    case Array(es) => forall e <- es :: Canonical(e, f)
    case Number(t) => f(t) == t
    case _ => true
  }

  lemma {:induction false} PrintedExactly(v: Node, f: Format)
    ensures Printed(v, f) == v <==> Canonical(v, f)
    decreases v, 0
  {
    match v
    case Object(ms) => MembersExactly(ms, f);
    case Array(es) => ElementsExactly(es, f);
    case _ =>
  }

  lemma {:induction false} ElementsExactly(es: seq<Node>, f: Format)
    ensures PrintedElements(es, f) == es <==> forall e <- es :: Canonical(e, f)
    decreases es, 1
  {
    hide Canonical;
    if es != [] {
      PrintedExactly(es[0], f);
      ElementsExactly(es[1..], f);
      assert es == [es[0]] + es[1..];
      assert PrintedElements(es, f)[1..] == PrintedElements(es[1..], f);
    }
  }

  lemma {:induction false} MembersExactly(ms: seq<Member>, f: Format)
    ensures PrintedMembers(ms, f) == ms <==> forall m <- ms :: Canonical(m.value, f)
    decreases ms, 1
  {
    hide Canonical;
    if ms != [] {
      PrintedExactly(ms[0].value, f);
      MembersExactly(ms[1..], f);
      assert ms == [ms[0]] + ms[1..];
      assert PrintedMembers(ms, f)[1..] == PrintedMembers(ms[1..], f);
    }
  }

  lemma {:induction false} PrintedNesting(v: Node, f: Format)
    ensures Nesting(Printed(v, f)) == Nesting(v)
    decreases v, 0
  {
    match v
    case Object(ms) => MembersKeepNesting(ms, f);
    case Array(es) => ElementsKeepNesting(es, f);
    case _ =>
  }

  lemma {:induction false} ElementsKeepNesting(es: seq<Node>, f: Format)
    ensures ElementsNesting(PrintedElements(es, f)) == ElementsNesting(es)
    decreases es, 1
  {
    if es != [] {
      PrintedNesting(es[0], f);
      ElementsKeepNesting(es[1..], f);
      assert PrintedElements(es, f)[1..] == PrintedElements(es[1..], f);
    }
  }

  lemma {:induction false} MembersKeepNesting(ms: seq<Member>, f: Format)
    ensures |PrintedMembers(ms, f)| == |ms| && MembersNesting(PrintedMembers(ms, f)) == MembersNesting(ms)
    decreases ms, 1
  {
    if ms != [] {
      PrintedNesting(ms[0].value, f);
      MembersKeepNesting(ms[1..], f);
      assert PrintedMembers(ms, f)[1..] == PrintedMembers(ms[1..], f);
    }
  }

  /** For every tree whose strings hold no NUL and whose numbers are printed as numbers: parsing the printed
      text, compact (negative indentation) or pretty, gives the tree with its numbers as printed if its
      levels are at most 1000, and fails otherwise. */
  lemma RoundTrip(v: Node, indent: int, f: Format)
    requires Writable(v, f)
    ensures Parse(Json.Text(v, indent, true, f)) == if Nesting(v) <= MAX_LEVEL then Some(Printed(v, f)) else None
  {
    hide Parse, Nesting, Printed, Writable, Concrete, IsVal, ValText, TreeOf, Body, Lead, AreBlanks;
    ConcretePrinted(v, indent, f);
    LeadsBlank(v, indent, true);
    BlanksNone();
    PrintedNesting(v, f);
    var c := Cell(Lead(v, indent, true), Concrete(v, indent, f), []);
    assert Body(v, indent, f) + [] == Body(v, indent, f);
    CellIsParsed(CellText(c), c);
  }

  // ---- whatever is accepted survives another round

  /** For every text the parser accepts: printing the tree, in any form, and parsing again gives the tree
      with its numbers as printed, unless a string holds an escaped NUL or a number is not printed as
      one. */
  lemma AcceptedRoundTrip(s: seq<byte>, indent: int, f: Format)
    requires Parse(s).Some? && Writable(Parse(s).value, f)
    ensures Parse(Json.Text(Parse(s).value, indent, true, f)) == Some(Printed(Parse(s).value, f))
  {
    hide Value, Json.Text;
    ValueFits(s, 0, 0);
    RoundTrip(Parse(s).value, indent, f);
  }
}
