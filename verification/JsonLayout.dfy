/** How the JSON writer lays out its text, src/json.c:561-654: the compact form is a shortest JSON text of the
    tree, and the pretty form is rows that are indented by two for every level. */
module JsonLayout {
  import opened Bytes
  import opened Pieces
  import opened Json
  import opened JsonStrings
  import opened JsonGrammar
  import opened JsonRoundTrip

  // ---- strings

  lemma {:induction false} EscapedJoin(a: seq<byte>, b: seq<byte>)
    ensures |EscapedText(a + b)| == |EscapedText(a)| + |EscapedText(b)|
  {
    hide Escaped;
    if a == [] {
      assert a + b == b;
    } else {
      EscapedJoin(a[1..], b);
      assert (a + b)[0] == a[0] && (a + b)[1..] == a[1..] + b;
    }
  }

  lemma ItemShortest(x: Item)
    requires IsItem(x)
    ensures |EscapedText(ItemValue(x))| <= |ItemText(x)|
  {
    hide Payload, Utf8;
    var u := ItemValue(x);
    EscapedOctets(u);
  }

  /** Octets of which at most the first needs an escape. */
  lemma EscapedOctets(u: seq<byte>)
    ensures |u| == 1 ==> |EscapedText(u)| == |Escaped(u[0])|
    ensures |u| == 2 && u[0] >= 128 && u[1] >= 128 ==> |EscapedText(u)| == 2
    ensures |u| == 3 && u[0] >= 128 && u[1] >= 128 && u[2] >= 128 ==> |EscapedText(u)| == 3
  {
    if |u| == 1 {
      assert u[1..] == [];
    } else if |u| == 2 {
      assert u[1..] == [u[1]] && u[1..][1..] == [];
    } else if |u| == 3 {
      assert u[1..] == [u[1], u[2]] && u[1..][1..] == [u[2]] && u[1..][1..][1..] == [];
    }
  }

  /** No literal for the same text is shorter. */
  lemma {:induction false} LiteralShortest(xs: seq<Item>)
    requires AreItems(xs)
    ensures |EscapedText(LiteralValue(xs))| <= |Literal(xs)|
  {
    hide Escaped, ItemText, ItemValue, IsItem, EscapedText;
    if xs == [] {
      NothingEscaped();
    } else {
      ItemShortest(xs[0]);
      LiteralShortest(xs[1..]);
      EscapedJoin(ItemValue(xs[0]), LiteralValue(xs[1..]));
    }
  }

  lemma NothingEscaped()
    ensures EscapedText([]) == []
  {
  }

  lemma QuotedShortest(xs: seq<Item>, t: seq<byte>)
    requires AreItems(xs) && LiteralValue(xs) == t
    ensures |Json.Quoted(t)| <= |JsonGrammar.Quoted(xs)|
  {
    hide EscapedText, Literal, LiteralValue, AreItems;
    LiteralShortest(xs);
  }

  // ---- the compact form

  /** No text of the grammar for the same tree is shorter than what is printed. */
  lemma {:induction false} ValueShortest(v: Node, c: Val, f: Format)
    requires IsVal(c) && TreeOf(c) == Printed(v, f)
    ensures |Body(v, -1, f)| <= |ValText(c)|
    decreases v, 0
  {
    hide AreCells, ArePairs, CellsText, PairsText, TreesOf, MembersOf, ElementsText, MembersText, LiteralValue,
         AreItems, JsonGrammar.Quoted, Json.Quoted, IsNum, PrintedElements, PrintedMembers, NumText;
    match v
    case Object(ms) =>
      PrintedSizes([], ms, f);
      if ms != [] {
        PairsSizes(c.pairs);
        PairsShortest(ms, c.pairs, false, f);
      }
    case Array(es) =>
      PrintedSizes(es, [], f);
      if es != [] {
        CellsSizes(c.cells);
        CellsShortest(es, c.cells, false, f);
      }
    case String(t) => QuotedShortest(c.items, t);
    case Number(t) =>
    case _ => WordIs(v);
  }

  lemma PrintedSizes(es: seq<Node>, ms: seq<Member>, f: Format)
    ensures PrintedElements(es, f) == [] <==> es == []
    ensures PrintedMembers(ms, f) == [] <==> ms == []
  {
  }

  lemma CellsSizes(cells: seq<Cell>)
    requires AreCells(cells)
    ensures TreesOf(cells) == [] <==> cells == []
  {
  }

  lemma PairsSizes(pairs: seq<Pair>)
    requires ArePairs(pairs)
    ensures MembersOf(pairs) == [] <==> pairs == []
  {
  }

  lemma {:induction false} CellsShortest(es: seq<Node>, cells: seq<Cell>, start: bool, f: Format)
    requires es != [] && cells != [] && AreCells(cells) && TreesOf(cells) == PrintedElements(es, f)
    ensures |ElementsText(es, -1, start, f)| <= |CellsText(cells)|
    decreases es, 1
  {
    hide Body, ValText, TreeOf, Printed, IsVal;
    assert IsCell(cells[0]);
    assert TreesOf(cells)[0] == PrintedElements(es, f)[0] && TreesOf(cells)[1..] == PrintedElements(es, f)[1..];
    ValueShortest(es[0], cells[0].value, f);
    CellsSizes(cells[1..]);
    PrintedSizes(es[1..], [], f);
    if es[1..] != [] {
      CellsShortest(es[1..], cells[1..], false, f);
      CellsMore(cells[1..]);
    }
  }

  lemma {:induction false} PairsShortest(ms: seq<Member>, pairs: seq<Pair>, start: bool, f: Format)
    requires ms != [] && pairs != [] && ArePairs(pairs) && MembersOf(pairs) == PrintedMembers(ms, f)
    ensures |MembersText(ms, -1, start, f)| <= |PairsText(pairs)|
    decreases ms, 1
  {
    hide Body, ValText, TreeOf, Printed, IsVal, LiteralValue, AreItems, Json.Quoted, JsonGrammar.Quoted, PairText,
         MemberText;
    var p := pairs[0];
    assert IsPair(p) && IsCell(p.cell);
    assert MembersOf(pairs)[0] == PrintedMembers(ms, f)[0] && MembersOf(pairs)[1..] == PrintedMembers(ms, f)[1..];
    ValueShortest(ms[0].value, p.cell.value, f);
    QuotedShortest(p.key, ms[0].key);
    MemberShortest(ms[0], p, f);
    PairsSizes(pairs[1..]);
    PrintedSizes([], ms[1..], f);
    if ms[1..] != [] {
      PairsShortest(ms[1..], pairs[1..], false, f);
      PairsMore(pairs[1..]);
    }
  }

  lemma MemberShortest(m: Member, p: Pair, f: Format)
    requires IsPair(p) && IsVal(p.cell.value)
    requires |Json.Quoted(m.key)| <= |JsonGrammar.Quoted(p.key)| && |Body(m.value, -1, f)| <= |ValText(p.cell.value)|
    ensures |MemberText(m, -1, f)| <= |PairText(p)|
  {
    hide Body, ValText, IsVal, AreItems, Json.Quoted, JsonGrammar.Quoted;
  }

  /** The compact form: it parses to the tree, and no other text that does is shorter. */
  lemma CompactShortest(v: Node, f: Format, s: seq<byte>)
    requires 0 !in s && Parse(s) == Some(Printed(v, f))
    ensures |Json.Text(v, -1, true, f)| <= |s|
  {
    hide Parse, Printed, IsVal, ValText, TreeOf, Body, Nesting, AreBlanks;
    ParsesExactly(s, Printed(v, f));
    var c :| IsCell(c) && CellText(c) == s && TreeOf(c.value) == Printed(v, f) && Nesting(Printed(v, f)) <= MAX_LEVEL;
    ValueShortest(v, c.value, f);
  }

  // ---- the pretty form

  /** A row of text. What is not an object or an array is not indented inside an array. */
  datatype Row = Indented(text: seq<byte>) | Flush(text: seq<byte>)

  predicate IsScalar(v: Node) { !v.Object? && !v.Array? }

  function ScalarText(v: Node, f: Format): seq<byte>
    requires IsScalar(v)
  {
    match v
    case String(t) => Json.Quoted(t)
    case Number(t) => f(t)
    case True => Ascii("true")
    case False => Ascii("false")
    case Null => Ascii("null")
  }

  /** One level deeper. */
  function Deeper(rows: seq<Row>): (r: seq<Row>)
    ensures |r| == |rows|
  {
    if rows == [] then []
    else [if rows[0].Flush? then rows[0] else Indented([SPACE, SPACE] + rows[0].text)] + Deeper(rows[1..])
  }

  function WithComma(rows: seq<Row>): seq<Row>
    requires rows != []
  {
    var n := |rows| - 1; rows[n := rows[n].(text := rows[n].text + [44])]
  }

  function Prefixed(prefix: seq<byte>, rows: seq<Row>): (r: seq<Row>)
    requires rows != []
    ensures |r| == |rows|
  {
    [Indented(prefix + rows[0].text)] + rows[1..]
  }

  /** Brackets on rows of their own, and in between one level deeper the parts, separated by commas. */
  function Rows(v: Node, f: Format): (rows: seq<Row>)
    ensures rows != [] && rows[0].Indented?
    decreases v, 0
  {
    match v
    case Object(ms) =>
      if ms == [] then [Indented([123, 125])]
      else [Indented([123])] + (Deeper(MemberRows(ms, f)) + [Indented([125])])
    case Array(es) =>
      if es == [] then [Indented([91, 93])]
      else [Indented([91])] + (Deeper(ElementRows(es, f)) + [Indented([93])])
    case _ => [Indented(ScalarText(v, f))]
  }

  function MemberRows(ms: seq<Member>, f: Format): (rows: seq<Row>)
    requires ms != []
    ensures rows != [] && rows[0].Indented?
    decreases ms, 1
  {
    var first := Prefixed(Json.Quoted(ms[0].key) + [58, SPACE], Rows(ms[0].value, f));
    if |ms| == 1 then first else WithComma(first) + MemberRows(ms[1..], f)
  }

  function ElementRows(es: seq<Node>, f: Format): (rows: seq<Row>)
    requires es != []
    ensures rows != []
    decreases es, 1
  {
    var first := if IsScalar(es[0]) then [Flush(ScalarText(es[0], f))] else Rows(es[0], f);
    if |es| == 1 then first else WithComma(first) + ElementRows(es[1..], f)
  }

  function Joined(rows: seq<Row>): seq<byte>
    requires rows != []
  {
    if |rows| == 1 then rows[0].text else rows[0].text + ([LF] + Joined(rows[1..]))
  }

  /** Rows inside a text that is indented by `n`, each behind a line break. */
  function Below(rows: seq<Row>, n: nat): seq<byte> {
    if rows == [] then []
    else [LF] + ((if rows[0].Flush? then rows[0].text else Spaces(n) + rows[0].text) + Below(rows[1..], n))
  }

  /** The same with the first row behind what is on its line. */
  function Beside(rows: seq<Row>, n: nat): seq<byte>
    requires rows != []
  {
    rows[0].text + Below(rows[1..], n)
  }

  lemma {:induction false} SpacesMore(n: nat)
    ensures Spaces(n + 2) == Spaces(n) + [SPACE, SPACE]
  {
    if n == 0 {
      assert Spaces(2) == [SPACE] + Spaces(1) && Spaces(1) == [SPACE] + Spaces(0);
    } else {
      SpacesMore(n - 1);
    }
  }

  lemma {:induction false} BelowJoin(a: seq<Row>, b: seq<Row>, n: nat)
    ensures Below(a + b, n) == Below(a, n) + Below(b, n)
  {
    hide Spaces;
    if a == [] {
      assert a + b == b;
    } else {
      BelowJoin(a[1..], b, n);
      assert (a + b)[0] == a[0] && (a + b)[1..] == a[1..] + b;
      var line := if a[0].Flush? then a[0].text else Spaces(n) + a[0].text;
      Regroup(line, Below(a[1..], n), Below(b, n));
      Regroup([LF], line + Below(a[1..], n), Below(b, n));
    }
  }

  lemma {:induction false} BelowDeeper(rows: seq<Row>, n: nat)
    ensures Below(Deeper(rows), n) == Below(rows, n + 2)
  {
    hide Spaces;
    if rows != [] {
      BelowDeeper(rows[1..], n);
      SpacesMore(n);
      assert Deeper(rows)[1..] == Deeper(rows[1..]);
      Regroup(Spaces(n), [SPACE, SPACE], rows[0].text);
    }
  }

  lemma BelowOne(row: Row, n: nat)
    ensures Below([row], n) == [LF] + (if row.Flush? then row.text else Spaces(n) + row.text)
  {
    hide Spaces;
    var line := if row.Flush? then row.text else Spaces(n) + row.text;
    assert [row][1..] == [] && line + [] == line;
  }

  lemma BelowComma(rows: seq<Row>, n: nat)
    requires rows != []
    ensures Below(WithComma(rows), n) == Below(rows, n) + [44]
  {
    hide Spaces;
    var k := |rows| - 1;
    var a, b := rows[..k], rows[k];
    assert rows == a + [b] && WithComma(rows) == a + [b.(text := b.text + [44])];
    BelowJoin(a, [b], n);
    BelowJoin(a, [b.(text := b.text + [44])], n);
    BelowOne(b, n);
    BelowOne(b.(text := b.text + [44]), n);
    Regroup(Spaces(n), b.text, [44]);
    var line := if b.Flush? then b.text else Spaces(n) + b.text;
    Regroup([LF], line, [44]);
    Regroup(Below(a, n), [LF] + line, [44]);
  }

  /** A block starts a line. */
  lemma BlockBelow(rows: seq<Row>, n: nat)
    requires rows != [] && rows[0].Indented?
    ensures Below(rows, n) == [LF] + (Spaces(n) + Beside(rows, n))
  {
    hide Spaces;
    Regroup(Spaces(n), rows[0].text, Below(rows[1..], n));
  }

  lemma {:induction false} BodyRows(v: Node, n: nat, f: Format)
    ensures Body(v, n, f) == Beside(Rows(v, f), n)
    decreases v, 0
  {
    hide Spaces, Below, MembersText, ElementsText, MemberRows, ElementRows, Deeper, Json.Quoted;
    match v
    case Object(ms) =>
      if ms == [] {
        NothingBelow([123, 125], n);
      } else {
        MembersBelow(ms, n + 2, f);
        Bracketed(MemberRows(ms, f), [123], [125], n);
        PartsAgree([123], [LF] + Spaces(n + 2), MembersText(ms, n + 2, false, f), [LF] + Spaces(n), [125]);
      }
    case Array(es) =>
      if es == [] {
        NothingBelow([91, 93], n);
      } else {
        ElementsBelow(es, n + 2, f);
        Bracketed(ElementRows(es, f), [91], [93], n);
        NoSpaces();
        PartsAgree([91], [LF] + [], ElementsText(es, n + 2, true, f), [LF] + Spaces(n), [93]);
      }
    case _ => NothingBelow(ScalarText(v, f), n);
  }

  lemma NoSpaces()
    ensures Spaces(0) == []
  {
  }

  lemma NothingBelow(text: seq<byte>, n: nat)
    ensures Beside([Indented(text)], n) == text
  {
    hide Spaces;
    assert [Indented(text)][1..] == [];
  }

  lemma Bracketed(rows: seq<Row>, open: seq<byte>, close: seq<byte>, n: nat)
    ensures Beside([Indented(open)] + (Deeper(rows) + [Indented(close)]), n)
         == open + (Below(rows, n + 2) + ([LF] + (Spaces(n) + close)))
  {
    hide Spaces, Below;
    var inner := Deeper(rows) + [Indented(close)];
    assert ([Indented(open)] + inner)[1..] == inner;
    BelowJoin(Deeper(rows), [Indented(close)], n);
    BelowDeeper(rows, n);
    BelowOne(Indented(close), n);
  }

  lemma PartsAgree(a: seq<byte>, b: seq<byte>, c: seq<byte>, d: seq<byte>, e: seq<byte>)
    ensures a + b + c + d + e == a + ((b + c) + (d + e))
  {
  }

  lemma {:induction false} MembersBelow(ms: seq<Member>, n: nat, f: Format)
    requires ms != []
    ensures Below(MemberRows(ms, f), n) == [LF] + Spaces(n) + MembersText(ms, n, false, f)
    decreases ms, 1
  {
    hide Spaces, Below, Rows, Body, Json.Quoted;
    var m, prefix := ms[0], Json.Quoted(ms[0].key) + [58, SPACE];
    var first := Prefixed(prefix, Rows(m.value, f));
    BodyRows(m.value, n, f);
    BlockBelow(first, n);
    PrefixedBeside(prefix, Rows(m.value, f), n);
    MemberIs(m, n, f);
    var text := MemberText(m, n, f);
    assert Below(first, n) == [LF] + (Spaces(n) + text);
    if |ms| == 1 {
      assert ms[1..] == [];
      LastMember([LF], Spaces(n), text);
    } else {
      MembersBelow(ms[1..], n, f);
      BelowComma(first, n);
      BelowJoin(WithComma(first), MemberRows(ms[1..], f), n);
      NoSpaces();
      MoreMember(Spaces(n), text, MembersText(ms[1..], n, false, f));
      MembersLead(ms[1..], n, f);
    }
  }

  lemma MemberIs(m: Member, n: nat, f: Format)
    ensures MemberText(m, n, f) == Json.Quoted(m.key) + [58, SPACE] + Body(m.value, n, f)
  {
    hide Body, Json.Quoted;
    assert [58] + [SPACE] == [58, SPACE];
    Regroup(Json.Quoted(m.key), [58], [SPACE]);
  }

  lemma PrefixedBeside(prefix: seq<byte>, rows: seq<Row>, n: nat)
    requires rows != []
    ensures Beside(Prefixed(prefix, rows), n) == prefix + Beside(rows, n)
  {
    hide Below;
    assert Prefixed(prefix, rows)[1..] == rows[1..];
    Regroup(prefix, rows[0].text, Below(rows[1..], n));
  }

  lemma MembersLead(ms: seq<Member>, n: nat, f: Format)
    requires ms != []
    ensures MembersText(ms, n, true, f) == Spaces(n) + MembersText(ms, n, false, f)
  {
    hide Spaces, MemberText, MoreMembersText;
    var text, more := MemberText(ms[0], n, f), MoreMembersText(ms[1..], n, f);
    assert [] + text + more == text + more;
    Regroup(Spaces(n), text, more);
  }

  lemma LastMember(lf: seq<byte>, spaces: seq<byte>, text: seq<byte>)
    ensures lf + (spaces + text) == lf + spaces + ([] + text + [])
  {
    assert [] + text + [] == text;
    Regroup(lf, spaces, text);
  }

  lemma MoreMember(spaces: seq<byte>, text: seq<byte>, rest: seq<byte>)
    ensures [LF] + (spaces + text) + [44] + ([LF] + spaces + rest)
         == [LF] + spaces + ([] + text + ([44] + ([LF] + []) + (spaces + rest)))
  {
    assert [] + text + ([44] + ([LF] + []) + (spaces + rest)) == text + ([44] + ([LF] + spaces + rest));
    assert [LF] + (spaces + text) + [44] + ([LF] + spaces + rest)
        == [LF] + spaces + (text + ([44] + ([LF] + spaces + rest)));
  }

  lemma {:induction false} ElementsBelow(es: seq<Node>, n: nat, f: Format)
    requires es != []
    ensures Below(ElementRows(es, f), n) == [LF] + ElementsText(es, n, true, f)
    decreases es, 1
  {
    hide Spaces, Below, Rows, Body, Json.Text, ScalarText;
    var e := es[0];
    var first := if IsScalar(e) then [Flush(ScalarText(e, f))] else Rows(e, f);
    var text := Json.Text(e, n, true, f);
    ElementBelow(e, n, f);
    if |es| == 1 {
      assert es[1..] == [] && text + [] == text;
    } else {
      ElementsBelow(es[1..], n, f);
      BelowComma(first, n);
      BelowJoin(WithComma(first), ElementRows(es[1..], f), n);
      NoSpaces();
      MoreElement(text, ElementsText(es[1..], n, true, f));
    }
  }

  lemma MoreElement(text: seq<byte>, rest: seq<byte>)
    ensures [LF] + text + [44] + ([LF] + rest) == [LF] + (text + ([44] + ([LF] + []) + rest))
  {
    assert [44] + ([LF] + []) + rest == [44] + ([LF] + rest);
    Regroup(text, [44], [LF] + rest);
    Regroup([LF], text + [44], [LF] + rest);
    Regroup([LF], text, [44]);
  }

  lemma {:induction false} ElementBelow(e: Node, n: nat, f: Format)
    ensures var first := if IsScalar(e) then [Flush(ScalarText(e, f))] else Rows(e, f);
            Below(first, n) == [LF] + Json.Text(e, n, true, f)
    decreases e, 1
  {
    hide Spaces, Below, Rows, Json.Quoted, MembersText, ElementsText;
    if IsScalar(e) {
      BelowOne(Flush(ScalarText(e, f)), n);
      assert [] + ScalarText(e, f) == ScalarText(e, f);
    } else {
      BodyRows(e, n, f);
      BlockBelow(Rows(e, f), n);
    }
  }

  lemma {:induction false} BesideJoined(rows: seq<Row>)
    requires rows != []
    ensures Beside(rows, 0) == Joined(rows)
    decreases |rows|
  {
    NoSpaces();
    if |rows| > 1 {
      BesideJoined(rows[1..]);
      var text := rows[1].text;
      assert [] + text == text;
      Regroup([LF], text, Below(rows[1..][1..], 0));
    }
  }

  /** The pretty form is the rows of the tree, one on each line. */
  lemma PrettyRows(v: Node, f: Format)
    ensures Json.Text(v, 0, true, f) == Joined(Rows(v, f))
  {
    hide Body, Rows, Joined, Below;
    NoSpaces();
    BodyRows(v, 0, f);
    BesideJoined(Rows(v, f));
    assert [] + Body(v, 0, f) == Body(v, 0, f);
  }
}
