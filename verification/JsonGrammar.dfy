/** The language of the JSON parser, src/json.c:182-529, as the grammar of RFC 8259: which texts it accepts,
    and the tree each of them stands for. */
module JsonGrammar {
  import opened Bytes
  import opened Pieces
  import opened Json
  import opened JsonStrings

  // ---- numbers

  predicate AreDigits(t: seq<byte>) { forall k :: 0 <= k < |t| ==> 48 <= t[k] <= 57 }

  /** The parts of a number, section 6 of RFC 8259. */
  datatype Num = Num(minus: bool, whole: seq<byte>, fraction: seq<byte>, exponent: seq<byte>)

  predicate IsFraction(t: seq<byte>) {
    t == [] || (t[0] == 46 && |t| > 1 && AreDigits(t[1..]))
  }

  predicate IsExponent(t: seq<byte>) {
    || t == []
    || ((t[0] == 101 || t[0] == 69) &&
        var d := if |t| > 1 && (t[1] == 43 || t[1] == 45) then t[2..] else t[1..];
        d != [] && AreDigits(d))
  }

  /** No zeros in front. */
  predicate IsNum(n: Num) {
    && n.whole != [] && AreDigits(n.whole) && (n.whole[0] == 48 ==> |n.whole| == 1)
    && IsFraction(n.fraction) && IsExponent(n.exponent)
  }

  function NumText(n: Num): seq<byte> {
    (if n.minus then [45] else []) + (n.whole + (n.fraction + n.exponent))
  }

  /** What can follow a value: the end, white space, a comma or a closing bracket. */
  predicate Ends(b: byte) { b == 0 || b == 44 || b == 93 || b == 125 || b in BLANKS }

  const BLANKS: set<byte> := {9, 10, 13, 32}

  lemma {:induction false} DigitsRead(s: seq<byte>, i: nat, t: seq<byte>)
    requires OccursAt(s, i, t) && AreDigits(t) && !(48 <= At(s, i + |t|) <= 57)
    ensures i <= |s| && DigitsEnd(s, i) == i + |t|
  {
    forall k | i <= k < i + |t| ensures 48 <= s[k] <= 57 { assert s[i + (k - i)] == t[k - i]; }
  }

  lemma AtOf(s: seq<byte>, i: nat, t: seq<byte>)
    requires OccursAt(s, i, t)
    ensures forall k :: 0 <= k < |t| ==> At(s, i + k) == t[k]
  {
  }

  lemma FractionRead(s: seq<byte>, i: nat, t: seq<byte>)
    requires IsFraction(t) && OccursAt(s, i, t)
    requires !(48 <= At(s, i + |t|) <= 57) && (t == [] ==> At(s, i) != 46)
    ensures i <= |s| && FractionEnd(s, i) == Some(i + |t|)
  {
    hide DigitsEnd, OccursAt;
    if t != [] {
      assert t == [t[0]] + t[1..];
      OccursSplit(s, i, [t[0]], t[1..]);
      OccursOne(s, i, t[0]);
      DigitsRead(s, i + 1, t[1..]);
    } else {
      OccursSlice(s, i, t);
    }
  }

  lemma ExponentRead(s: seq<byte>, i: nat, t: seq<byte>)
    requires IsExponent(t) && OccursAt(s, i, t) && Ends(At(s, i + |t|))
    ensures i <= |s| && ExponentEnd(s, i) == Some(i + |t|)
  {
    hide DigitsEnd, OccursAt, ExponentEnd, IsExponent, AreDigits;
    if t == [] {
      OccursSlice(s, i, t);
      NoExponent(s, i);
    } else {
      var n := ExponentParts(t);
      assert t == t[..n] + t[n..];
      OccursSplit(s, i, t[..n], t[n..]);
      AtPart(s, i, t);
      DigitsRead(s, i + n, t[n..]);
      ExponentStep(s, i, n);
    }
  }

  lemma NoExponent(s: seq<byte>, i: nat)
    requires i <= |s| && Ends(At(s, i))
    ensures ExponentEnd(s, i) == Some(i)
  {
  }

  /** The letter with its sign, and the digits behind. */
  lemma ExponentParts(t: seq<byte>) returns (n: nat)
    requires IsExponent(t) && t != []
    ensures (t[0] == 101 || t[0] == 69) && 1 <= n <= 2 && n < |t| && AreDigits(t[n..])
    ensures n == if t[1] == 43 || t[1] == 45 then 2 else 1
  {
    n := if |t| > 1 && (t[1] == 43 || t[1] == 45) then 2 else 1;
  }

  lemma ExponentStep(s: seq<byte>, i: nat, n: nat)
    requires i + n <= |s| && (At(s, i) == 101 || At(s, i) == 69) && DigitsEnd(s, i + n) != i + n
    requires n == if At(s, i + 1) == 43 || At(s, i + 1) == 45 then 2 else 1
    ensures ExponentEnd(s, i) == Some(DigitsEnd(s, i + n))
  {
    hide DigitsEnd;
  }

  lemma AtPart(s: seq<byte>, i: nat, t: seq<byte>)
    requires OccursAt(s, i, t)
    ensures i + |t| <= |s|
    ensures |t| > 0 ==> At(s, i) == t[0]
    ensures |t| > 1 ==> At(s, i + 1) == t[1]
  {
    if |t| > 0 { assert s[i + 0] == t[0]; }
    if |t| > 1 { assert s[i + 1] == t[1]; }
  }

  /** Every number is read to its end. */
  lemma NumRead(s: seq<byte>, i: nat, n: Num)
    requires IsNum(n) && OccursAt(s, i, NumText(n)) && Ends(At(s, i + |NumText(n)|))
    ensures i < |s| && (s[i] == 45 || 48 <= s[i] <= 57) && NumberEnd(s, i) == Some(i + |NumText(n)|)
  {
    hide OccursAt, DigitsEnd, FractionEnd, ExponentEnd, IsFraction, IsExponent, NumberEnd, ReadsOn, AreDigits, Ends;
    var minus: seq<byte> := if n.minus then [45] else [];
    var j := i + |minus|;
    var k := j + |n.whole|;
    var m := k + |n.fraction|;
    NumParts(s, i, n, minus);
    AtPart(s, i, minus);
    AtPart(s, j, n.whole);
    FractionFollowed(s, m, n.exponent);
    WholeFollowed(s, k, n);
    FractionRead(s, k, n.fraction);
    ExponentRead(s, m, n.exponent);
    WholeRead(s, j, n.whole);
    NumberStep(s, i, j, k, m);
  }

  lemma WholeRead(s: seq<byte>, j: nat, w: seq<byte>)
    requires w != [] && AreDigits(w) && (w[0] == 48 ==> |w| == 1)
    requires OccursAt(s, j, w) && !(48 <= At(s, j + |w|) <= 57)
    ensures j < |s| && 48 <= s[j] <= 57 && j + |w| == if s[j] == 48 then j + 1 else DigitsEnd(s, j + 1)
  {
    hide OccursAt, DigitsEnd;
    AtPart(s, j, w);
    if w[0] != 48 {
      assert w == [w[0]] + w[1..];
      OccursSplit(s, j, [w[0]], w[1..]);
      DigitsRead(s, j + 1, w[1..]);
    }
  }

  lemma NumberStep(s: seq<byte>, i: nat, j: nat, k: nat, m: nat)
    requires i <= j < |s| && j == (if s[i] == 45 then i + 1 else i) && 48 <= s[j] <= 57 && k <= |s| && m <= |s|
    requires !ReadsOn(s, k) && k == if s[j] == 48 then j + 1 else DigitsEnd(s, j + 1)
    requires FractionEnd(s, k) == Some(m)
    ensures NumberEnd(s, i) == ExponentEnd(s, m)
  {
    hide DigitsEnd, FractionEnd, ExponentEnd, ReadsOn;
  }

  lemma NumParts(s: seq<byte>, i: nat, n: Num, minus: seq<byte>)
    requires OccursAt(s, i, minus + (n.whole + (n.fraction + n.exponent)))
    ensures var j := i + |minus|;
            var k := j + |n.whole|;
            && OccursAt(s, i, minus) && OccursAt(s, j, n.whole) && OccursAt(s, k, n.fraction)
            && OccursAt(s, k + |n.fraction|, n.exponent)
  {
    hide OccursAt;
    OccursSplit(s, i, minus, n.whole + (n.fraction + n.exponent));
    OccursSplit(s, i + |minus|, n.whole, n.fraction + n.exponent);
    OccursSplit(s, i + |minus| + |n.whole|, n.fraction, n.exponent);
  }

  /** Behind a fraction there is no digit and no point. */
  lemma FractionFollowed(s: seq<byte>, m: nat, exponent: seq<byte>)
    requires IsExponent(exponent) && OccursAt(s, m, exponent) && Ends(At(s, m + |exponent|))
    ensures var b := At(s, m); !(48 <= b <= 57) && b != 46 && b != 120 && b != 88
  {
    AtPart(s, m, exponent);
  }

  /** Behind the whole part there is no digit, and nothing that strtod would go on with. */
  lemma WholeFollowed(s: seq<byte>, k: nat, n: Num)
    requires IsFraction(n.fraction) && OccursAt(s, k, n.fraction)
    requires var b := At(s, k + |n.fraction|); !(48 <= b <= 57) && b != 46 && b != 120 && b != 88
    ensures !(48 <= At(s, k) <= 57) && !ReadsOn(s, k) && (n.fraction == [] ==> At(s, k) != 46)
  {
    AtPart(s, k, n.fraction);
  }

  /** Whatever is read as a number is one. */
  lemma NumFound(s: seq<byte>, i: nat) returns (n: Num)
    requires i < |s| && NumberEnd(s, i).Some?
    ensures IsNum(n) && NumText(n) == s[i..NumberEnd(s, i).value]
  {
    hide DigitsEnd, FractionEnd, ExponentEnd, ReadsOn, IsFraction, IsExponent, AreDigits;
    var j := if s[i] == 45 then i + 1 else i;
    var k := if At(s, j) == 48 then j + 1 else DigitsEnd(s, j + 1);
    var m, e := FractionEnd(s, k).value, NumberEnd(s, i).value;
    n := Num(s[i] == 45, s[j..k], s[k..m], s[m..e]);
    assert s[j..k][0] == s[j] && (At(s, j) == 48 ==> |s[j..k]| == 1);
    WholeFound(s, j, k);
    FractionFound(s, k);
    ExponentFound(s, m);
    SignAndParts(s, i, j, k, m, e);
  }

  lemma SignAndParts(s: seq<byte>, i: nat, j: nat, k: nat, m: nat, e: nat)
    requires i < |s| && j == (if s[i] == 45 then i + 1 else i) && j <= k <= m <= e <= |s|
    ensures s[i..e] == (if s[i] == 45 then [45] else []) + (s[j..k] + (s[k..m] + s[m..e]))
  {
    assert s[j..e] == s[j..k] + (s[k..m] + s[m..e]);
    assert s[i..e] == s[i..j] + s[j..e];
  }

  lemma WholeFound(s: seq<byte>, j: nat, k: nat)
    requires j < k <= |s| && 48 <= s[j] <= 57 && (k == j + 1 || k == DigitsEnd(s, j + 1))
    ensures AreDigits(s[j..k])
  {
    forall x | 0 <= x < k - j ensures 48 <= s[j..k][x] <= 57 { DigitAt(s, j, k, j + x); }
  }

  lemma DigitAt(s: seq<byte>, j: nat, k: nat, x: nat)
    requires j < |s| && 48 <= s[j] <= 57 && (k == j + 1 || k == DigitsEnd(s, j + 1)) && j <= x < k <= |s|
    ensures 48 <= s[x] <= 57
  {
  }

  lemma FractionFound(s: seq<byte>, k: nat)
    requires k <= |s| && FractionEnd(s, k).Some?
    ensures IsFraction(s[k..FractionEnd(s, k).value])
  {
  }

  lemma ExponentFound(s: seq<byte>, m: nat)
    requires m <= |s| && ExponentEnd(s, m).Some?
    ensures IsExponent(s[m..ExponentEnd(s, m).value])
  {
    var e := ExponentEnd(s, m).value;
    var t := s[m..e];
    if t != [] {
      var n := if At(s, m + 1) == 43 || At(s, m + 1) == 45 then 2 else 1;
      assert t[n..] == s[m + n..e];
    }
  }

  // ---- texts

  predicate AreBlanks(w: seq<byte>) { forall k :: 0 <= k < |w| ==> w[k] in BLANKS }

  /** A value as it is written. */
  datatype Val =
    | Word(node: Node)
    | Figure(num: Num)
    | Text(items: seq<Item>)
    | List(gap: seq<byte>, cells: seq<Cell>)
    | Record(gap: seq<byte>, pairs: seq<Pair>)

  /** A value with white space on both sides. */
  datatype Cell = Cell(before: seq<byte>, value: Val, after: seq<byte>)

  /** A key with white space on both sides, and a value. */
  datatype Pair = Pair(before: seq<byte>, key: seq<Item>, after: seq<byte>, cell: Cell)

  predicate IsVal(v: Val) {
    match v
    case Word(n) => n in WORDS
    case Figure(n) => IsNum(n)
    case Text(xs) => AreItems(xs)
    case List(gap, cells) => if cells == [] then AreBlanks(gap) else AreCells(cells)
    case Record(gap, pairs) => if pairs == [] then AreBlanks(gap) else ArePairs(pairs)
  }

  predicate IsCell(c: Cell) { AreBlanks(c.before) && IsVal(c.value) && AreBlanks(c.after) }

  predicate IsPair(p: Pair) { AreBlanks(p.before) && AreItems(p.key) && AreBlanks(p.after) && IsCell(p.cell) }

  predicate AreCells(cells: seq<Cell>) { cells == [] || (IsCell(cells[0]) && AreCells(cells[1..])) }

  predicate ArePairs(pairs: seq<Pair>) { pairs == [] || (IsPair(pairs[0]) && ArePairs(pairs[1..])) }

  const WORDS: map<Node, seq<byte>> := map[True := Ascii("true"), False := Ascii("false"), Null := Ascii("null")]

  function Quoted(xs: seq<Item>): seq<byte> { [QUOTE] + (Literal(xs) + [QUOTE]) }

  function ValText(v: Val): seq<byte>
    requires IsVal(v)
  {
    match v
    case Word(n) => WORDS[n]
    case Figure(n) => NumText(n)
    case Text(xs) => Quoted(xs)
    case List(gap, cells) => [91] + ((if cells == [] then gap else CellsText(cells)) + [93])
    case Record(gap, pairs) => [123] + ((if pairs == [] then gap else PairsText(pairs)) + [125])
  }

  function CellText(c: Cell): seq<byte>
    requires IsCell(c)
  {
    c.before + (ValText(c.value) + c.after)
  }

  /** Cells separated by commas. */
  function CellsText(cells: seq<Cell>): seq<byte>
    requires AreCells(cells) && cells != []
  {
    CellText(cells[0]) + MoreCellsText(cells[1..])
  }

  function MoreCellsText(cells: seq<Cell>): seq<byte>
    requires AreCells(cells)
  {
    if cells == [] then [] else [44] + (CellText(cells[0]) + MoreCellsText(cells[1..]))
  }

  function PairText(p: Pair): seq<byte>
    requires IsPair(p)
  {
    p.before + (Quoted(p.key) + (p.after + ([58] + CellText(p.cell))))
  }

  function PairsText(pairs: seq<Pair>): seq<byte>
    requires ArePairs(pairs) && pairs != []
  {
    PairText(pairs[0]) + MorePairsText(pairs[1..])
  }

  function MorePairsText(pairs: seq<Pair>): seq<byte>
    requires ArePairs(pairs)
  {
    if pairs == [] then [] else [44] + (PairText(pairs[0]) + MorePairsText(pairs[1..]))
  }

  // ---- what they stand for

  function TreeOf(v: Val): Node
    requires IsVal(v)
  {
    match v
    case Word(n) => n
    case Figure(n) => Number(NumText(n))
    case Text(xs) => String(LiteralValue(xs))
    case List(_, cells) => Array(if cells == [] then [] else TreesOf(cells))
    case Record(_, pairs) => Object(if pairs == [] then [] else MembersOf(pairs))
  }

  function TreesOf(cells: seq<Cell>): seq<Node>
    requires AreCells(cells)
  {
    if cells == [] then []
    else assert IsCell(cells[0]); [TreeOf(cells[0].value)] + TreesOf(cells[1..])
  }

  function MembersOf(pairs: seq<Pair>): seq<Member>
    requires ArePairs(pairs)
  {
    if pairs == [] then []
    else
      assert IsPair(pairs[0]) && IsCell(pairs[0].cell);
      [Member(LiteralValue(pairs[0].key), TreeOf(pairs[0].cell.value))] + MembersOf(pairs[1..])
  }

  // ---- nesting

  function Max(a: nat, b: nat): nat { if a > b then a else b }

  /** The levels the parser counts: every array, and every object that is not empty. */
  function Nesting(v: Node): nat
    decreases v, 0
  {
    match v
    case Object(ms) => if ms == [] then 0 else 1 + MembersNesting(ms)
    case Array(es) => 1 + ElementsNesting(es)
    case _ => 0
  }

  function ElementsNesting(es: seq<Node>): nat
    decreases es, 1
  {
    if es == [] then 0 else Max(Nesting(es[0]), ElementsNesting(es[1..]))
  }

  function MembersNesting(ms: seq<Member>): nat
    decreases ms, 1
  {
    if ms == [] then 0 else Max(Nesting(ms[0].value), MembersNesting(ms[1..]))
  }

  /** A value is read up to `end` if it fits below the nesting limit; otherwise an error is set. */
  predicate Outcome<T(==)>(r: Result<T>, v: T, end: nat, fits: bool) {
    if fits then r == Result(Some(v), end, false) else r.err
  }

  // ---- white space

  lemma BlankIs(b: byte)
    ensures IsBlank(b) <==> b in BLANKS
  {
  }

  lemma LookPast(s: seq<byte>, i: nat, w: seq<byte>)
    requires AreBlanks(w) && OccursAt(s, i, w) && At(s, i + |w|) !in BLANKS
    ensures i <= |s| && Look(s, i) == i + |w|
  {
    BlankIs(At(s, i + |w|));
    forall k | i <= k < i + |w| ensures IsBlank(s[k]) {
      assert s[i + (k - i)] == w[k - i];
      BlankIs(s[k]);
    }
  }

  lemma LookSame(s: seq<byte>, i: nat)
    requires i <= |s| && At(s, i) !in BLANKS
    ensures Look(s, i) == i
  {
    BlankIs(At(s, i));
  }

  /** What begins a value. */
  lemma ValStarts(s: seq<byte>, i: nat, v: Val)
    requires IsVal(v) && OccursAt(s, i, ValText(v))
    ensures i < |s| && s[i] !in BLANKS && s[i] != 93 && s[i] != 125
  {
    hide CellsText, PairsText, Literal, OccursAt;
    StartOf(v);
    AtPart(s, i, ValText(v));
  }

  lemma StartOf(v: Val)
    requires IsVal(v)
    ensures var t := ValText(v); t != [] && t[0] !in BLANKS && t[0] != 93 && t[0] != 125
  {
    hide CellsText, PairsText, Literal;
  }

  // ---- values without parts

  lemma WordParsed(s: seq<byte>, i: nat, n: Node, level: nat)
    requires n in WORDS && OccursAt(s, i, WORDS[n]) && Ends(At(s, i + |WORDS[n]|))
    ensures i <= |s| && Value(s, i, level) == Result(Some(n), i + |WORDS[n]|, false)
  {
    hide OccursAt, LettersEnd, Keyword, Value;
    var w := WORDS[n];
    WordIs(n);
    OccursSlice(s, i, w);
    forall k | i <= k < i + |w| ensures 97 <= s[k] <= 122 { assert s[k] == s[i..i + |w|][k - i]; }
    LettersEndIs(s, i, 7, i + |w|);
    WordStep(s, i, level);
  }

  lemma WordIs(n: Node)
    requires n in WORDS
    ensures var w := WORDS[n];
            0 < |w| < 7 && (forall k :: 0 <= k < |w| ==> 97 <= w[k] <= 122) && Keyword(w) == Some(n)
  {
    if n.True? {
      assert Ascii("true")[0] == 116;
    } else if n.False? {
      assert |Ascii("false")| != |Ascii("true")|;
    } else {
      assert Ascii("null")[0] != Ascii("true")[0] && |Ascii("null")| != |Ascii("false")|;
    }
  }

  lemma WordStep(s: seq<byte>, i: nat, level: nat)
    requires i < |s| && 97 <= s[i] <= 122
    ensures var e := LettersEnd(s, i, 7);
            Value(s, i, level) == Result(Keyword(s[i..e]), e, Keyword(s[i..e]).None?)
  {
    LookSame(s, i);
  }

  lemma LettersEndIs(s: seq<byte>, i: nat, n: nat, e: nat)
    requires i <= e <= |s| && e - i < n && forall k :: i <= k < e ==> 97 <= s[k] <= 122
    requires Ends(At(s, e))
    ensures LettersEnd(s, i, n) == e
  {
  }

  lemma FigureParsed(s: seq<byte>, i: nat, n: Num, level: nat)
    requires IsNum(n) && OccursAt(s, i, NumText(n)) && Ends(At(s, i + |NumText(n)|))
    ensures i <= |s| && Value(s, i, level) == Result(Some(Number(NumText(n))), i + |NumText(n)|, false)
  {
    hide OccursAt, NumberEnd, IsNum, NumText;
    NumRead(s, i, n);
    OccursSlice(s, i, NumText(n));
    LookSame(s, i);
  }

  /** A string, wherever one is expected. */
  lemma StringParsed(s: seq<byte>, i: nat, j: nat, xs: seq<Item>)
    requires AreItems(xs) && i <= j <= |s| && Look(s, i) == j && OccursAt(s, j, Quoted(xs))
    ensures StringAt(s, i) == Result(Some(LiteralValue(xs)), j + |Quoted(xs)|, false)
  {
    hide OccursAt, Chars, Literal;
    OccursSplit(s, j, [QUOTE], Literal(xs) + [QUOTE]);
    OccursOne(s, j, QUOTE);
    LiteralRead(s, j + 1, xs);
  }

  lemma TextParsed(s: seq<byte>, i: nat, xs: seq<Item>, level: nat)
    requires AreItems(xs) && OccursAt(s, i, Quoted(xs))
    ensures i <= |s| && Value(s, i, level) == Result(Some(String(LiteralValue(xs))), i + |Quoted(xs)|, false)
  {
    hide StringAt, OccursAt, Literal;
    AtPart(s, i, Quoted(xs));
    LookSame(s, i);
    StringParsed(s, i, i, xs);
  }

  // ---- steps of the parser

  lemma ValueLooks(s: seq<byte>, i: nat, j: nat, level: nat)
    requires i <= j <= |s| && Look(s, i) == j && At(s, j) !in BLANKS
    ensures Value(s, i, level) == Value(s, j, level)
  {
    LookSame(s, j);
  }

  lemma ElementsStep(s: seq<byte>, i: nat, j: nat, level: nat, v: Node, end: nat, fits: bool)
    requires i <= j <= |s| && Look(s, i) == j && At(s, j) !in BLANKS && end <= |s|
    requires Outcome(Value(s, j, level), v, end, fits)
    ensures fits ==> Elements(s, i, level) == MoreElements(s, end, level, [v], false)
    ensures !fits ==> Elements(s, i, level).err
  {
    hide Value, MoreElements;
    ValueLooks(s, i, j, level);
  }

  lemma MoreElementsStep(s: seq<byte>, i: nat, q: nat, j: nat, level: nat, v: Node, end: nat, fits: bool, es: seq<Node>)
    requires i <= q < j <= |s| && Look(s, i) == q && At(s, q) == 44 && Look(s, q + 1) == j && At(s, j) !in BLANKS
    requires end <= |s| && Outcome(Value(s, j, level), v, end, fits)
    ensures fits ==> MoreElements(s, i, level, es, false) == MoreElements(s, end, level, es + [v], false)
    ensures !fits ==> MoreElements(s, i, level, es, false).err
  {
    hide Value;
    ValueLooks(s, q + 1, j, level);
  }

  lemma MoreElementsEnd(s: seq<byte>, i: nat, level: nat, es: seq<Node>)
    requires i <= |s| && At(s, Look(s, i)) != 44
    ensures MoreElements(s, i, level, es, false) == Result(Some(es), Look(s, i), false)
  {
    hide Value;
  }

  /** What surrounds the elements of an array. */
  lemma ArrayStep(s: seq<byte>, i: nat, end: nat, level: nat, es: seq<Node>, fits: bool)
    requires i + 1 < |s| && At(s, i) == 91 && At(s, Look(s, i + 1)) != 93
    requires end < |s| && At(s, end) == 93
    requires level < MAX_LEVEL ==> Outcome(Elements(s, Look(s, i + 1), level + 1), es, end, fits)
    requires level >= MAX_LEVEL ==> !fits
    ensures Outcome(Value(s, i, level), Array(es), end + 1, fits)
  {
    hide Elements;
    LookSame(s, i);
    LookSame(s, end);
  }

  lemma EmptyArray(s: seq<byte>, i: nat, level: nat)
    requires i + 1 < |s| && At(s, i) == 91 && At(s, Look(s, i + 1)) == 93
    ensures Outcome(Value(s, i, level), Array([]), Look(s, i + 1) + 1, level < MAX_LEVEL)
  {
    hide Elements;
    LookSame(s, i);
  }

  lemma PairStep(s: seq<byte>, i: nat, key: seq<byte>, e: nat, k: nat, level: nat, v: Node, end: nat, fits: bool)
    requires i <= |s| && StringAt(s, i) == Result(Some(key), e, false) && e <= |s| && Look(s, e) < |s|
    requires At(s, Look(s, e)) == 58 && Look(s, Look(s, e) + 1) == k && At(s, k) !in BLANKS && end <= |s|
    requires Outcome(Value(s, k, level), v, end, fits)
    ensures Outcome(PairAt(s, i, level), Member(key, v), end, fits)
  {
    hide Value, StringAt;
    ValueLooks(s, Look(s, e) + 1, k, level);
  }

  lemma MembersStep(s: seq<byte>, i: nat, level: nat, m: Member, end: nat, fits: bool)
    requires i <= |s| && end <= |s| && Outcome(PairAt(s, i, level), m, end, fits)
    ensures fits ==> Members(s, i, level) == MoreMembers(s, end, level, [m], false)
    ensures !fits ==> Members(s, i, level).err
  {
    hide PairAt, MoreMembers;
  }

  lemma MoreMembersStep(s: seq<byte>, i: nat, q: nat, level: nat, m: Member, end: nat, fits: bool, ms: seq<Member>)
    requires i <= q < |s| && Look(s, i) == q && At(s, q) == 44 && end <= |s|
    requires Outcome(PairAt(s, q + 1, level), m, end, fits)
    ensures fits ==> MoreMembers(s, i, level, ms, false) == MoreMembers(s, end, level, ms + [m], false)
    ensures !fits ==> MoreMembers(s, i, level, ms, false).err
  {
    hide PairAt;
  }

  lemma MoreMembersEnd(s: seq<byte>, i: nat, level: nat, ms: seq<Member>)
    requires i <= |s| && At(s, Look(s, i)) != 44
    ensures MoreMembers(s, i, level, ms, false) == Result(Some(ms), Look(s, i), false)
  {
    hide PairAt;
  }

  lemma ObjectStep(s: seq<byte>, i: nat, end: nat, level: nat, ms: seq<Member>, fits: bool)
    requires i + 1 < |s| && At(s, i) == 123 && At(s, Look(s, i + 1)) != 125
    requires end < |s| && At(s, end) == 125
    requires level < MAX_LEVEL ==> Outcome(Members(s, Look(s, i + 1), level + 1), ms, end, fits)
    requires level >= MAX_LEVEL ==> !fits
    ensures Outcome(Value(s, i, level), Object(ms), end + 1, fits)
  {
    hide Members;
    LookSame(s, i);
    LookSame(s, end);
  }

  lemma EmptyObject(s: seq<byte>, i: nat, level: nat)
    requires i + 1 < |s| && At(s, i) == 123 && At(s, Look(s, i + 1)) == 125
    ensures Value(s, i, level) == Result(Some(Object([])), Look(s, i + 1) + 1, false)
  {
    hide Members;
    LookSame(s, i);
  }

  // ---- every text of the grammar is parsed

  /** Every value of the grammar, anywhere in a text and at any level, is read to its end as its tree, or an
      error is set if it is nested too deep. */
  lemma {:induction false} ValueParsed(s: seq<byte>, i: nat, v: Val, level: nat)
    requires IsVal(v) && level <= MAX_LEVEL && OccursAt(s, i, ValText(v)) && Ends(At(s, i + |ValText(v)|))
    ensures i <= |s|
    ensures Outcome(Value(s, i, level), TreeOf(v), i + |ValText(v)|, level + Nesting(TreeOf(v)) <= MAX_LEVEL)
    decreases v, 0
  {
    hide OccursAt, Value, Ends, AreCells, ArePairs, CellsText, PairsText, TreesOf, MembersOf, NumText, IsNum,
         LiteralValue, AreItems, Literal, Quoted, AreBlanks, Look, ElementsNesting, MembersNesting;
    AtPart(s, i, ValText(v));
    match v
    case Word(n) => WordParsed(s, i, n, level);
    case Figure(n) => FigureParsed(s, i, n, level);
    case Text(xs) => TextParsed(s, i, xs, level);
    case List(gap, cells) => {
      if cells == [] {
        NoElements();
        EmptyList(s, i, gap, level);
      } else {
        Between(s, i, 91, CellsText(cells), 93);
        ListParsed(s, i, cells, level);
      }
    }
    case Record(gap, pairs) => {
      if pairs == [] {
        EmptyRecord(s, i, gap, level);
      } else {
        Between(s, i, 123, PairsText(pairs), 125);
        MembersNotEmpty(pairs);
        RecordParsed(s, i, pairs, level);
      }
    }
  }

  lemma NoElements()
    ensures ElementsNesting([]) == 0
  {
  }

  lemma EmptyList(s: seq<byte>, i: nat, gap: seq<byte>, level: nat)
    requires AreBlanks(gap) && OccursAt(s, i, [91] + (gap + [93]))
    ensures i <= |s| && Outcome(Value(s, i, level), Array([]), i + 2 + |gap|, level < MAX_LEVEL)
  {
    hide OccursAt, Value, AreBlanks, Look;
    Between(s, i, 91, gap, 93);
    LookPast(s, i + 1, gap);
    EmptyArray(s, i, level);
  }

  lemma EmptyRecord(s: seq<byte>, i: nat, gap: seq<byte>, level: nat)
    requires AreBlanks(gap) && OccursAt(s, i, [123] + (gap + [125]))
    ensures i <= |s| && Value(s, i, level) == Result(Some(Object([])), i + 2 + |gap|, false)
  {
    hide OccursAt, Value, AreBlanks, Look;
    Between(s, i, 123, gap, 125);
    LookPast(s, i + 1, gap);
    EmptyObject(s, i, level);
  }

  lemma MembersNotEmpty(pairs: seq<Pair>)
    requires ArePairs(pairs) && pairs != []
    ensures MembersOf(pairs) != []
  {
  }

  /** What is between two brackets. */
  lemma Between(s: seq<byte>, i: nat, open: byte, inner: seq<byte>, close: byte)
    requires OccursAt(s, i, [open] + (inner + [close]))
    ensures i + 2 + |inner| <= |s| && At(s, i) == open && At(s, i + 1 + |inner|) == close && OccursAt(s, i + 1, inner)
  {
    hide OccursAt;
    OccursSplit(s, i, [open], inner + [close]);
    OccursOne(s, i, open);
    OccursSplit(s, i + 1, inner, [close]);
    OccursOne(s, i + 1 + |inner|, close);
  }

  lemma {:induction false} ListParsed(s: seq<byte>, i: nat, cells: seq<Cell>, level: nat)
    requires AreCells(cells) && cells != [] && level <= MAX_LEVEL && i + 1 <= |s| && At(s, i) == 91
    requires OccursAt(s, i + 1, CellsText(cells)) && At(s, i + 1 + |CellsText(cells)|) == 93
    ensures var end := i + 2 + |CellsText(cells)|;
            end <= |s| && Outcome(Value(s, i, level), Array(TreesOf(cells)), end,
                                  level + 1 + ElementsNesting(TreesOf(cells)) <= MAX_LEVEL)
    decreases cells, 3
  {
    hide OccursAt, Value, Elements, MoreElements, IsVal, CellText, MoreCellsText, TreeOf, Nesting;
    var c, rest := cells[0], cells[1..];
    var b, end := i + 1, i + 1 + |CellsText(cells)|;
    OccursSplit(s, b, CellText(c), MoreCellsText(rest));
    var q := b + |CellText(c)|;
    MoreStarts(s, q, rest);
    if level < MAX_LEVEL {
      var j, x, fits := CellParsed(s, b, c, level + 1);
      LookSame(s, j);
      ElementsStep(s, j, j, level + 1, TreeOf(c.value), x, fits);
      if fits { MoreCellsParsed(s, x, q, rest, level + 1, [TreeOf(c.value)]); }
    } else {
      CellStarts(s, b, c);
    }
    var k := level + 1 + ElementsNesting(TreesOf(cells)) <= MAX_LEVEL;
    ArrayStep(s, i, end, level, TreesOf(cells), k);
  }

  lemma CellStarts(s: seq<byte>, b: nat, c: Cell)
    requires IsCell(c) && OccursAt(s, b, CellText(c))
    ensures b <= |s|
    ensures var j := Look(s, b); j == b + |c.before| && j < |s| && s[j] !in BLANKS && s[j] != 93 && s[j] != 125
    ensures OccursAt(s, b + |c.before|, ValText(c.value))
    ensures OccursAt(s, b + |c.before| + |ValText(c.value)|, c.after)
  {
    hide OccursAt, IsVal, ValText;
    OccursSplit(s, b, c.before, ValText(c.value) + c.after);
    OccursSplit(s, b + |c.before|, ValText(c.value), c.after);
    ValStarts(s, b + |c.before|, c.value);
    LookPast(s, b, c.before);
  }

  /** A cell: where its value begins and ends, and what follows the white space behind it. */
  lemma {:induction false} CellParsed(s: seq<byte>, b: nat, c: Cell, level: nat) returns (j: nat, x: nat, fits: bool)
    requires IsCell(c) && level <= MAX_LEVEL && OccursAt(s, b, CellText(c))
    requires At(s, b + |CellText(c)|) in {44, 93, 125}
    ensures b <= |s| && Look(s, b) == j && j < |s| && s[j] !in BLANKS && s[j] != 93 && s[j] != 125
    ensures j < x <= b + |CellText(c)| <= |s| && Look(s, x) == b + |CellText(c)|
    ensures fits == (level + Nesting(TreeOf(c.value)) <= MAX_LEVEL)
    ensures Outcome(Value(s, j, level), TreeOf(c.value), x, fits)
    decreases c, 1
  {
    hide OccursAt, Value, IsVal, ValText, TreeOf, Nesting;
    j := b + |c.before|;
    x := j + |ValText(c.value)|;
    fits := level + Nesting(TreeOf(c.value)) <= MAX_LEVEL;
    CellStarts(s, b, c);
    NotEmpty(c.value);
    AfterEnds(s, x, c.after);
    ValueParsed(s, j, c.value, level);
  }

  lemma NotEmpty(v: Val)
    requires IsVal(v)
    ensures |ValText(v)| > 0
  {
    hide CellsText, PairsText, Literal;
  }

  lemma AfterEnds(s: seq<byte>, x: nat, w: seq<byte>)
    requires AreBlanks(w) && OccursAt(s, x, w) && At(s, x + |w|) in {44, 93, 125}
    ensures x + |w| < |s| && Ends(At(s, x)) && Look(s, x) == x + |w|
  {
    AtPart(s, x, w);
    LookPast(s, x, w);
  }

  /** The list goes on with a comma, or a bracket closes it. */
  lemma MoreStarts(s: seq<byte>, q: nat, cells: seq<Cell>)
    requires AreCells(cells) && OccursAt(s, q, MoreCellsText(cells)) && At(s, q + |MoreCellsText(cells)|) == 93
    ensures At(s, q) == if cells == [] then 93 else 44
  {
    hide OccursAt, CellText;
    if cells != [] { AtPart(s, q, MoreCellsText(cells)); }
  }

  lemma {:induction false} MoreCellsParsed(s: seq<byte>, p: nat, q: nat, cells: seq<Cell>, level: nat, acc: seq<Node>)
    requires AreCells(cells) && level <= MAX_LEVEL && p <= q <= |s| && Look(s, p) == q
    requires OccursAt(s, q, MoreCellsText(cells)) && At(s, q + |MoreCellsText(cells)|) == 93
    ensures var end := q + |MoreCellsText(cells)|;
            Outcome(MoreElements(s, p, level, acc, false), acc + TreesOf(cells), end,
                    level + ElementsNesting(TreesOf(cells)) <= MAX_LEVEL)
    decreases cells, 2
  {
    hide OccursAt, Value, MoreElements, IsVal, CellText, TreeOf, Nesting;
    MoreStarts(s, q, cells);
    if cells == [] {
      MoreElementsEnd(s, p, level, acc);
      assert acc + [] == acc;
    } else {
      var c, rest := cells[0], cells[1..];
      OccursSplit(s, q, [44], CellText(c) + MoreCellsText(rest));
      OccursSplit(s, q + 1, CellText(c), MoreCellsText(rest));
      var q' := q + 1 + |CellText(c)|;
      MoreStarts(s, q', rest);
      var j, x, fits := CellParsed(s, q + 1, c, level);
      MoreElementsStep(s, p, q, j, level, TreeOf(c.value), x, fits, acc);
      if fits {
        MoreCellsParsed(s, x, q', rest, level, acc + [TreeOf(c.value)]);
        Regroup(acc, [TreeOf(c.value)], TreesOf(rest));
      }
    }
  }

  // ---- the same for objects

  lemma {:induction false} RecordParsed(s: seq<byte>, i: nat, pairs: seq<Pair>, level: nat)
    requires ArePairs(pairs) && pairs != [] && level <= MAX_LEVEL && i + 1 <= |s| && At(s, i) == 123
    requires OccursAt(s, i + 1, PairsText(pairs)) && At(s, i + 1 + |PairsText(pairs)|) == 125
    ensures var end := i + 2 + |PairsText(pairs)|;
            end <= |s| && Outcome(Value(s, i, level), Object(MembersOf(pairs)), end,
                                  level + 1 + MembersNesting(MembersOf(pairs)) <= MAX_LEVEL)
    decreases pairs, 3
  {
    hide OccursAt, Value, Members, MoreMembers, IsVal, PairText, MorePairsText, TreeOf, Nesting, LiteralValue, PairAt,
         AreItems;
    var p, rest := pairs[0], pairs[1..];
    assert IsPair(p) && IsCell(p.cell);
    var b, end := i + 1, i + 1 + |PairsText(pairs)|;
    OccursSplit(s, b, PairText(p), MorePairsText(rest));
    var q := b + |PairText(p)|;
    MorePairsStart(s, q, rest);
    KeyStarts(s, b, p);
    if level < MAX_LEVEL {
      var m := Member(LiteralValue(p.key), TreeOf(p.cell.value));
      var x, fits := PairParsed(s, Look(s, b), b, p, level + 1);
      MembersStep(s, Look(s, b), level + 1, m, x, fits);
      if fits { MorePairsParsed(s, x, q, rest, level + 1, [m]); }
    }
    ObjectStep(s, i, end, level, MembersOf(pairs), level + 1 + MembersNesting(MembersOf(pairs)) <= MAX_LEVEL);
  }

  lemma PairParts(s: seq<byte>, b: nat, p: Pair)
    requires IsPair(p) && OccursAt(s, b, PairText(p))
    ensures var j := b + |p.before|;
            var e := j + |Quoted(p.key)|;
            var colon := e + |p.after|;
            && OccursAt(s, b, p.before) && OccursAt(s, j, Quoted(p.key)) && OccursAt(s, e, p.after)
            && colon < |s| && s[colon] == 58 && OccursAt(s, colon + 1, CellText(p.cell))
            && b + |PairText(p)| == colon + 1 + |CellText(p.cell)|
  {
    hide OccursAt, CellText, Quoted;
    OccursSplit(s, b, p.before, Quoted(p.key) + (p.after + ([58] + CellText(p.cell))));
    var j := b + |p.before|;
    OccursSplit(s, j, Quoted(p.key), p.after + ([58] + CellText(p.cell)));
    var e := j + |Quoted(p.key)|;
    OccursSplit(s, e, p.after, [58] + CellText(p.cell));
    OccursSplit(s, e + |p.after|, [58], CellText(p.cell));
    OccursOne(s, e + |p.after|, 58);
  }

  lemma KeyStarts(s: seq<byte>, b: nat, p: Pair)
    requires IsPair(p) && OccursAt(s, b, PairText(p))
    ensures b <= |s| && Look(s, b) == b + |p.before| < |s| && s[Look(s, b)] == QUOTE
  {
    hide OccursAt, PairText, Literal, IsCell;
    PairParts(s, b, p);
    AtPart(s, b + |p.before|, Quoted(p.key));
    LookPast(s, b, p.before);
  }

  /** A pair, read from its beginning or from its key. */
  lemma {:induction false} PairParsed(s: seq<byte>, k: nat, b: nat, p: Pair, level: nat) returns (x: nat, fits: bool)
    requires IsPair(p) && level <= MAX_LEVEL && OccursAt(s, b, PairText(p)) && At(s, b + |PairText(p)|) in {44, 125}
    requires b <= |s| && (k == b || k == Look(s, b))
    ensures k <= |s| && x <= b + |PairText(p)| <= |s| && Look(s, x) == b + |PairText(p)|
    ensures fits == (level + Nesting(TreeOf(p.cell.value)) <= MAX_LEVEL)
    ensures Outcome(PairAt(s, k, level), Member(LiteralValue(p.key), TreeOf(p.cell.value)), x, fits)
    decreases p, 2
  {
    hide OccursAt, Value, IsCell, CellText, TreeOf, Nesting, LiteralValue, PairAt, StringAt, PairText, Quoted, Look,
         AreBlanks, AreItems;
    CellsValue(p.cell);
    PairParts(s, b, p);
    KeyStarts(s, b, p);
    var j := b + |p.before|;
    var e := j + |Quoted(p.key)|;
    var colon := e + |p.after|;
    LookSame(s, j);
    StringParsed(s, k, j, p.key);
    AtPart(s, e, p.after);
    LookPast(s, e, p.after);
    var start;
    start, x, fits := CellParsed(s, colon + 1, p.cell, level);
    PairStep(s, k, LiteralValue(p.key), e, start, level, TreeOf(p.cell.value), x, fits);
  }

  lemma CellsValue(c: Cell)
    requires IsCell(c)
    ensures IsVal(c.value)
  {
  }

  lemma MorePairsStart(s: seq<byte>, q: nat, pairs: seq<Pair>)
    requires ArePairs(pairs) && OccursAt(s, q, MorePairsText(pairs)) && At(s, q + |MorePairsText(pairs)|) == 125
    ensures At(s, q) == if pairs == [] then 125 else 44
  {
    hide OccursAt, PairText;
    if pairs != [] { AtPart(s, q, MorePairsText(pairs)); }
  }

  lemma {:induction false} MorePairsParsed(s: seq<byte>, p: nat, q: nat, pairs: seq<Pair>, level: nat, acc: seq<Member>)
    requires ArePairs(pairs) && level <= MAX_LEVEL && p <= q <= |s| && Look(s, p) == q
    requires OccursAt(s, q, MorePairsText(pairs)) && At(s, q + |MorePairsText(pairs)|) == 125
    ensures var end := q + |MorePairsText(pairs)|;
            Outcome(MoreMembers(s, p, level, acc, false), acc + MembersOf(pairs), end,
                    level + MembersNesting(MembersOf(pairs)) <= MAX_LEVEL)
    decreases pairs, 2
  {
    hide OccursAt, Value, MoreMembers, IsVal, PairText, TreeOf, Nesting, LiteralValue, PairAt, AreItems;
    MorePairsStart(s, q, pairs);
    if pairs == [] {
      MoreMembersEnd(s, p, level, acc);
      assert acc + [] == acc;
    } else {
      var first, rest := pairs[0], pairs[1..];
      assert IsPair(first) && IsCell(first.cell);
      OccursSplit(s, q, [44], PairText(first) + MorePairsText(rest));
      OccursSplit(s, q + 1, PairText(first), MorePairsText(rest));
      var q' := q + 1 + |PairText(first)|;
      MorePairsStart(s, q', rest);
      AtPart(s, q, [44]);
      var m := Member(LiteralValue(first.key), TreeOf(first.cell.value));
      var x, fits := PairParsed(s, q + 1, q + 1, first, level);
      MoreMembersStep(s, p, q, level, m, x, fits, acc);
      if fits {
        MorePairsParsed(s, x, q', rest, level, acc + [m]);
        Regroup(acc, [m], MembersOf(rest));
      }
    }
  }

  // ---- nothing that is returned is nested too deep

  /** Every element, or every value of a member, fits below the nesting limit. */
  predicate ElementsFit(es: seq<Node>, level: nat) { level + ElementsNesting(es) <= MAX_LEVEL }
  predicate MembersFit(ms: seq<Member>, level: nat) { level + MembersNesting(ms) <= MAX_LEVEL }

  lemma {:induction false} ElementsNestingSnoc(es: seq<Node>, v: Node)
    ensures ElementsNesting(es + [v]) == Max(ElementsNesting(es), Nesting(v))
  {
    hide Nesting;
    if es == [] {
      assert [v][1..] == [] && [] + [v] == [v];
    } else {
      ElementsNestingSnoc(es[1..], v);
      assert (es + [v])[1..] == es[1..] + [v];
    }
  }

  lemma {:induction false} MembersNestingSnoc(ms: seq<Member>, m: Member)
    ensures MembersNesting(ms + [m]) == Max(MembersNesting(ms), Nesting(m.value))
  {
    hide Nesting;
    if ms == [] {
      assert [m][1..] == [] && [] + [m] == [m];
    } else {
      MembersNestingSnoc(ms[1..], m);
      assert (ms + [m])[1..] == ms[1..] + [m];
    }
  }

  /** The parser never returns a tree that is nested too deep. */
  lemma {:induction false} ValueFits(s: seq<byte>, i: nat, level: nat)
    requires i <= |s| && level <= MAX_LEVEL && Value(s, i, level).node.Some?
    ensures level + Nesting(Value(s, i, level).node.value) <= MAX_LEVEL
    decreases |s| - i, 2
  {
    hide StringAt, ObjectAt, ArrayAt, LettersEnd;
    var j := Look(s, i);
    if At(s, j) == 123 {
      ObjectFits(s, j, level);
    } else if At(s, j) == 91 {
      ArrayFits(s, j, level);
    }
  }

  lemma {:induction false} ArrayFits(s: seq<byte>, j: nat, level: nat)
    requires j < |s| && level <= MAX_LEVEL && ArrayAt(s, j, level).node.Some?
    ensures level + Nesting(ArrayAt(s, j, level).node.value) <= MAX_LEVEL
    decreases |s| - j, 1
  {
    hide Elements;
    var k := Look(s, j + 1);
    if At(s, k) != 93 && Elements(s, k, level + 1).node.Some? {
      ElementsRead(s, k, level + 1);
    }
  }

  lemma {:induction false} ElementsRead(s: seq<byte>, i: nat, level: nat)
    requires i <= |s| && level <= MAX_LEVEL && Elements(s, i, level).node.Some?
    ensures ElementsFit(Elements(s, i, level).node.value, level)
    decreases |s| - i, 3
  {
    hide Value, MoreElements, Nesting;
    var v := Value(s, i, level);
    ValueFits(s, i, level);
    ElementsNestingSnoc([], v.node.value);
    assert [] + [v.node.value] == [v.node.value];
    MoreElementsFit(s, v.next, level, [v.node.value], v.err);
  }

  lemma {:induction false} MoreElementsFit(s: seq<byte>, i: nat, level: nat, es: seq<Node>, err: bool)
    requires i <= |s| && level <= MAX_LEVEL && ElementsFit(es, level) && MoreElements(s, i, level, es, err).node.Some?
    ensures ElementsFit(MoreElements(s, i, level, es, err).node.value, level)
    decreases |s| - i, 0
  {
    hide Value, Nesting, ElementsNesting;
    var q := Look(s, i);
    if At(s, q) == 44 {
      var v := Value(s, q + 1, level);
      ValueFits(s, q + 1, level);
      ElementsNestingSnoc(es, v.node.value);
      MoreElementsFit(s, v.next, level, es + [v.node.value], err || v.err);
    }
  }

  lemma {:induction false} PairFits(s: seq<byte>, i: nat, level: nat)
    requires i <= |s| && level <= MAX_LEVEL && PairAt(s, i, level).node.Some?
    ensures level + Nesting(PairAt(s, i, level).node.value.value) <= MAX_LEVEL
    decreases |s| - i, 0
  {
    hide Value, Nesting, StringAt;
    var q := Look(s, StringAt(s, i).next);
    ValueFits(s, q + 1, level);
  }

  lemma {:induction false} MembersRead(s: seq<byte>, i: nat, level: nat)
    requires i <= |s| && level <= MAX_LEVEL && Members(s, i, level).node.Some?
    ensures MembersFit(Members(s, i, level).node.value, level)
    decreases |s| - i, 1
  {
    hide PairAt, MoreMembers, Nesting;
    var m := PairAt(s, i, level);
    PairFits(s, i, level);
    MembersNestingSnoc([], m.node.value);
    assert [] + [m.node.value] == [m.node.value];
    MoreMembersFit(s, m.next, level, [m.node.value], m.err);
  }

  lemma {:induction false} MoreMembersFit(s: seq<byte>, i: nat, level: nat, ms: seq<Member>, err: bool)
    requires i <= |s| && level <= MAX_LEVEL && MembersFit(ms, level) && MoreMembers(s, i, level, ms, err).node.Some?
    ensures MembersFit(MoreMembers(s, i, level, ms, err).node.value, level)
    decreases |s| - i, 0
  {
    hide PairAt, Nesting, MembersNesting;
    var q := Look(s, i);
    if At(s, q) == 44 {
      var m := PairAt(s, q + 1, level);
      PairFits(s, q + 1, level);
      MembersNestingSnoc(ms, m.node.value);
      MoreMembersFit(s, m.next, level, ms + [m.node.value], err || m.err);
    }
  }

  lemma {:induction false} ObjectFits(s: seq<byte>, j: nat, level: nat)
    requires j < |s| && level <= MAX_LEVEL && ObjectAt(s, j, level).node.Some?
    ensures level + Nesting(ObjectAt(s, j, level).node.value) <= MAX_LEVEL
    decreases |s| - j, 1
  {
    hide Members;
    var k := Look(s, j + 1);
    if At(s, k) != 125 {
      MembersRead(s, k, level + 1);
    }
  }

  // ---- whatever is accepted is a text of the grammar

  lemma {:induction false} ValueFound(s: seq<byte>, i: nat, level: nat) returns (v: Val)
    requires i <= |s| && 0 !in s && Value(s, i, level).node.Some? && !Value(s, i, level).err
    ensures IsVal(v) && var r := Value(s, i, level); ValText(v) == s[Look(s, i)..r.next] && TreeOf(v) == r.node.value
    decreases |s| - i, 2
  {
    hide StringAt, ObjectAt, ArrayAt, LettersEnd, NumberEnd, Keyword, AreItems, IsNum, NumText, Literal, LiteralValue;
    var j := Look(s, i);
    var c := At(s, j);
    if c == QUOTE {
      LookSame(s, j);
      var xs := StringFound(s, j);
      v := Text(xs);
    } else if c == 45 || 48 <= c <= 57 {
      var n := NumFound(s, j);
      v := Figure(n);
    } else if c == 123 {
      v := ObjectFound(s, j, level);
    } else if c == 91 {
      v := ArrayFound(s, j, level);
    } else {
      KeywordFound(s[j..LettersEnd(s, j, 7)]);
      v := Word(Value(s, i, level).node.value);
    }
  }

  lemma KeywordFound(tok: seq<byte>)
    requires Keyword(tok).Some?
    ensures Keyword(tok).value in WORDS && WORDS[Keyword(tok).value] == tok
  {
  }

  lemma StringFound(s: seq<byte>, i: nat) returns (xs: seq<Item>)
    requires i <= |s| && 0 !in s && StringAt(s, i).node.Some?
    ensures AreItems(xs) && Quoted(xs) == s[Look(s, i)..StringAt(s, i).next]
    ensures LiteralValue(xs) == StringAt(s, i).node.value
  {
    hide Chars, Literal, LiteralValue, AreItems;
    var j := Look(s, i);
    xs := LiteralFound(s, j + 1);
    var e := Chars(s, j + 1).next;
    assert s[j..e + 1] == [s[j]] + (s[j + 1..e] + [s[e]]);
    OccursHere(s, j + 1, e + 1, Literal(xs) + [QUOTE]);
    LiteralRead(s, j + 1, xs);
  }

  lemma BlanksFound(s: seq<byte>, i: nat)
    requires i <= |s|
    ensures AreBlanks(s[i..Look(s, i)])
  {
    var j := Look(s, i);
    forall k | 0 <= k < j - i ensures s[i..j][k] in BLANKS { BlankIs(s[i + k]); }
  }

  lemma {:induction false} ArrayFound(s: seq<byte>, j: nat, level: nat) returns (v: Val)
    requires j < |s| && s[j] == 91 && 0 !in s && ArrayAt(s, j, level).node.Some? && !ArrayAt(s, j, level).err
    ensures IsVal(v) && var r := ArrayAt(s, j, level); ValText(v) == s[j..r.next] && TreeOf(v) == r.node.value
    decreases |s| - j, 1
  {
    hide Elements, AreCells, CellsText, TreesOf, Look, AreBlanks;
    var k := Look(s, j + 1);
    BlanksFound(s, j + 1);
    if At(s, k) == 93 {
      v := List(s[j + 1..k], []);
      Bracketed(s, j, k);
    } else {
      var cells := ElementsFound(s, j + 1, k, level + 1);
      var q := Look(s, Elements(s, k, level + 1).next);
      v := List([], cells);
      Bracketed(s, j, q);
    }
  }

  lemma Bracketed(s: seq<byte>, j: nat, q: nat)
    requires j < q < |s|
    ensures s[j..q + 1] == [s[j]] + (s[j + 1..q] + [s[q]])
  {
  }

  /** The elements from `b` on; they are looked for at `i`, behind the white space. */
  lemma {:induction false} ElementsFound(s: seq<byte>, b: nat, i: nat, level: nat) returns (cells: seq<Cell>)
    requires b <= i <= |s| && Look(s, b) == i && 0 !in s
    requires Elements(s, i, level).node.Some? && !Elements(s, i, level).err
    ensures var r := Elements(s, i, level);
            && AreCells(cells) && cells != [] && CellsText(cells) == s[b..r.next] && TreesOf(cells) == r.node.value
            && Look(s, r.next) == r.next
    decreases |s| - i, 3
  {
    hide Value, MoreElements, IsVal, ValText, TreeOf, MoreCellsText, TreesOf, CellsText, CellText, AreCells, IsCell,
         Look;
    var x := Value(s, i, level);
    MoreErr(s, x.next, level, [x.node.value], x.err);
    LookTwice(s, b);
    var value := ValueFound(s, i, level);
    var q := Look(s, x.next);
    var cell := CellFound(s, b, i, x.next, value);
    var rest := MoreElementsFound(s, x.next, level, [x.node.value]);
    cells := [cell] + rest;
    CellsCons(cell, rest);
    Cut(s, b, q, Elements(s, i, level).next);
  }

  /** A value with the white space around it. */
  lemma CellFound(s: seq<byte>, b: nat, j: nat, x: nat, v: Val) returns (c: Cell)
    requires b <= j <= x <= |s| && j == Look(s, b) && IsVal(v) && ValText(v) == s[j..x]
    ensures c.value == v && IsCell(c) && CellText(c) == s[b..Look(s, x)]
  {
    hide IsVal, ValText, Look, AreBlanks;
    var q := Look(s, x);
    BlanksFound(s, b);
    BlanksFound(s, x);
    c := Cell(s[b..j], v, s[x..q]);
    Cut(s, j, x, q);
    Cut(s, b, j, q);
  }

  lemma Cut(s: seq<byte>, a: nat, b: nat, c: nat)
    requires a <= b <= c <= |s|
    ensures s[a..c] == s[a..b] + s[b..c]
  {
  }

  lemma CellsCons(c: Cell, rest: seq<Cell>)
    requires IsCell(c) && AreCells(rest)
    ensures AreCells([c] + rest) && CellsText([c] + rest) == CellText(c) + MoreCellsText(rest)
    ensures TreesOf([c] + rest) == [TreeOf(c.value)] + TreesOf(rest)
    ensures MoreCellsText([c] + rest) == [44] + (CellText(c) + MoreCellsText(rest))
  {
    hide IsVal, ValText, TreeOf, CellText;
    assert ([c] + rest)[0] == c && ([c] + rest)[1..] == rest;
  }

  lemma LookTwice(s: seq<byte>, i: nat)
    requires i <= |s|
    ensures Look(s, Look(s, i)) == Look(s, i)
  {
    BlankIs(At(s, Look(s, i)));
    LookSame(s, Look(s, i));
  }

  lemma MoreErr(s: seq<byte>, i: nat, level: nat, es: seq<Node>, err: bool)
    requires i <= |s| && !MoreElements(s, i, level, es, err).err
    ensures !err
  {
  }

  lemma {:induction false} MoreElementsFound(s: seq<byte>, i: nat, level: nat, es: seq<Node>) returns (cells: seq<Cell>)
    requires i <= |s| && 0 !in s
    requires MoreElements(s, i, level, es, false).node.Some? && !MoreElements(s, i, level, es, false).err
    ensures var r := MoreElements(s, i, level, es, false);
            && Look(s, i) <= r.next <= |s| && Look(s, r.next) == r.next
            && AreCells(cells) && MoreCellsText(cells) == s[Look(s, i)..r.next] && es + TreesOf(cells) == r.node.value
    decreases |s| - i, 0
  {
    hide Value, IsVal, ValText, TreeOf, Look, AreCells, IsCell, CellText, MoreCellsText, TreesOf;
    var q := Look(s, i);
    LookTwice(s, i);
    NoCells();
    if At(s, q) != 44 {
      cells := [];
      assert es + [] == es;
    } else {
      var x := Value(s, q + 1, level);
      MoreErr(s, x.next, level, es + [x.node.value], false || x.err);
      var value := ValueFound(s, q + 1, level);
      ValueAhead(s, q + 1, level);
      var cell := CellFound(s, q + 1, Look(s, q + 1), x.next, value);
      var rest := MoreElementsFound(s, x.next, level, es + [x.node.value]);
      cells := [cell] + rest;
      CellsCons(cell, rest);
      Regroup(es, [x.node.value], TreesOf(rest));
      CommaSlices(s, q, Look(s, x.next), MoreElements(s, i, level, es, false).next);
    }
  }

  lemma NoCells()
    ensures AreCells([]) && MoreCellsText([]) == [] && TreesOf([]) == []
  {
  }

  /** A value does not end in front of the white space before it. */
  lemma ValueAhead(s: seq<byte>, i: nat, level: nat)
    requires i <= |s|
    ensures Look(s, i) <= Value(s, i, level).next
  {
    hide StringAt, ObjectAt, ArrayAt, LettersEnd, NumberEnd, Keyword, DigitsEnd;
  }

  // ---- the same for objects

  lemma {:induction false} ObjectFound(s: seq<byte>, j: nat, level: nat) returns (v: Val)
    requires j < |s| && s[j] == 123 && 0 !in s && ObjectAt(s, j, level).node.Some? && !ObjectAt(s, j, level).err
    ensures IsVal(v) && var r := ObjectAt(s, j, level); ValText(v) == s[j..r.next] && TreeOf(v) == r.node.value
    decreases |s| - j, 1
  {
    hide Members, ArePairs, PairsText, MembersOf, Look, AreBlanks;
    var k := Look(s, j + 1);
    BlanksFound(s, j + 1);
    if At(s, k) == 125 {
      v := Record(s[j + 1..k], []);
      Bracketed(s, j, k);
    } else {
      var pairs := MembersFound(s, j + 1, k, level + 1);
      var q := Look(s, Members(s, k, level + 1).next);
      v := Record([], pairs);
      Bracketed(s, j, q);
    }
  }

  /** A pair from `b` on; it is looked for at `i`. */
  lemma {:induction false} PairFound(s: seq<byte>, b: nat, i: nat, level: nat) returns (p: Pair)
    requires b <= i <= |s| && Look(s, b) == Look(s, i) && 0 !in s
    requires PairAt(s, i, level).node.Some? && !PairAt(s, i, level).err
    ensures var r := PairAt(s, i, level);
            && r.next <= Look(s, r.next) <= |s| && IsPair(p) && PairText(p) == s[b..Look(s, r.next)]
            && IsVal(p.cell.value)
            && Member(LiteralValue(p.key), TreeOf(p.cell.value)) == r.node.value
    decreases |s| - i, 0
  {
    hide Value, IsVal, ValText, TreeOf, StringAt, Quoted, AreItems, LiteralValue, IsCell, CellText, AreBlanks, Look;
    var k := StringAt(s, i);
    var key := StringFound(s, i);
    var j, colon := Look(s, i), Look(s, k.next);
    var x := Value(s, colon + 1, level);
    var value := ValueFound(s, colon + 1, level);
    BlanksFound(s, b);
    BlanksFound(s, k.next);
    StringAhead(s, i);
    ValueAhead(s, colon + 1, level);
    var cell := CellFound(s, colon + 1, Look(s, colon + 1), x.next, value);
    p := Pair(s[b..j], key, s[k.next..colon], cell);
    PairSlices(s, b, j, k.next, colon, Look(s, x.next));
  }

  lemma StringAhead(s: seq<byte>, i: nat)
    requires i <= |s| && StringAt(s, i).node.Some?
    ensures Look(s, i) <= StringAt(s, i).next
  {
    hide Chars;
  }

  lemma PairSlices(s: seq<byte>, b: nat, j: nat, k: nat, colon: nat, q: nat)
    requires b <= j <= k <= colon < q <= |s|
    ensures s[b..q] == s[b..j] + (s[j..k] + (s[k..colon] + ([s[colon]] + s[colon + 1..q])))
  {
    assert s[colon..q] == [s[colon]] + s[colon + 1..q];
    Cut(s, k, colon, q);
    Cut(s, j, k, q);
    Cut(s, b, j, q);
  }

  lemma {:induction false} MembersFound(s: seq<byte>, b: nat, i: nat, level: nat) returns (pairs: seq<Pair>)
    requires b <= i <= |s| && Look(s, b) == i && 0 !in s
    requires Members(s, i, level).node.Some? && !Members(s, i, level).err
    ensures var r := Members(s, i, level);
            && ArePairs(pairs) && pairs != [] && PairsText(pairs) == s[b..r.next] && MembersOf(pairs) == r.node.value
            && Look(s, r.next) == r.next
    decreases |s| - i, 1
  {
    hide PairAt, MoreMembers, IsVal, ValText, TreeOf, MorePairsText, MembersOf, LiteralValue, PairText, Quoted, IsPair;
    var m := PairAt(s, i, level);
    MorePairsErr(s, m.next, level, [m.node.value], m.err);
    LookTwice(s, b);
    var first := PairFound(s, b, i, level);
    var q := Look(s, m.next);
    var rest := MoreMembersFound(s, m.next, level, [m.node.value]);
    pairs := [first] + rest;
    PairsCons(first, rest);
    var e := Members(s, i, level).next;
    PairAhead(s, i, level);
    assert s[b..e] == s[b..q] + s[q..e];
  }

  lemma PairAhead(s: seq<byte>, i: nat, level: nat)
    requires i <= |s|
    ensures i <= PairAt(s, i, level).next
  {
  }

  lemma PairsCons(p: Pair, rest: seq<Pair>)
    requires IsPair(p) && ArePairs(rest)
    ensures IsVal(p.cell.value) && AreItems(p.key)
    ensures ArePairs([p] + rest) && PairsText([p] + rest) == PairText(p) + MorePairsText(rest)
    ensures MembersOf([p] + rest) == [Member(LiteralValue(p.key), TreeOf(p.cell.value))] + MembersOf(rest)
    ensures MorePairsText([p] + rest) == [44] + (PairText(p) + MorePairsText(rest))
  {
    hide IsVal, ValText, TreeOf, PairText, LiteralValue, AreItems;
    assert IsCell(p.cell);
    assert ([p] + rest)[0] == p && ([p] + rest)[1..] == rest;
  }

  lemma NoPairs()
    ensures ArePairs([]) && MorePairsText([]) == [] && MembersOf([]) == []
  {
  }

  lemma MorePairsErr(s: seq<byte>, i: nat, level: nat, ms: seq<Member>, err: bool)
    requires i <= |s| && !MoreMembers(s, i, level, ms, err).err
    ensures !err
  {
  }

  lemma {:induction false} MoreMembersFound(s: seq<byte>, i: nat, level: nat, ms: seq<Member>)
    returns (pairs: seq<Pair>)
    requires i <= |s| && 0 !in s
    requires MoreMembers(s, i, level, ms, false).node.Some? && !MoreMembers(s, i, level, ms, false).err
    ensures var r := MoreMembers(s, i, level, ms, false);
            && Look(s, i) <= r.next <= |s| && Look(s, r.next) == r.next
            && ArePairs(pairs) && MorePairsText(pairs) == s[Look(s, i)..r.next] && ms + MembersOf(pairs) == r.node.value
    decreases |s| - i, 0
  {
    hide PairAt, IsVal, ValText, TreeOf, LiteralValue, PairText, Quoted, IsPair, Look, ArePairs, MembersOf,
         MorePairsText;
    var q := Look(s, i);
    LookTwice(s, i);
    NoPairs();
    if At(s, q) != 44 {
      pairs := [];
      assert ms + [] == ms;
    } else {
      var m := PairAt(s, q + 1, level);
      MorePairsErr(s, m.next, level, ms + [m.node.value], false || m.err);
      var first := PairFound(s, q + 1, q + 1, level);
      var rest := MoreMembersFound(s, m.next, level, ms + [m.node.value]);
      pairs := [first] + rest;
      PairsCons(first, rest);
      Regroup(ms, [m.node.value], MembersOf(rest));
      var q', e := Look(s, m.next), MoreMembers(s, i, level, ms, false).next;
      CommaSlices(s, q, q', e);
    }
  }

  lemma CommaSlices(s: seq<byte>, q: nat, k: nat, e: nat)
    requires q < k <= e <= |s|
    ensures s[q..e] == [s[q]] + (s[q + 1..k] + s[k..e])
  {
  }

  // ---- the parser is exact

  /** Every C string: the parser returns a tree if and only if the string is a JSON text for it, white space on
      both sides included, and the tree is not nested too deep. */
  lemma ParsesExactly(s: seq<byte>, n: Node)
    requires 0 !in s
    ensures Parse(s) == Some(n) <==>
              exists c :: IsCell(c) && CellText(c) == s && TreeOf(c.value) == n && Nesting(n) <= MAX_LEVEL
  {
    hide Value, IsVal, ValText, TreeOf, Nesting;
    if Parse(s) == Some(n) {
      var v := ValueFound(s, 0, 0);
      ValueFits(s, 0, 0);
      var x := Value(s, 0, 0).next;
      ValueAhead(s, 0, 0);
      NulIsEnd(s, Look(s, x));
      var c := CellFound(s, 0, Look(s, 0), x, v);
      assert s[0..|s|] == s;
    }
    if c :| IsCell(c) && CellText(c) == s && TreeOf(c.value) == n && Nesting(n) <= MAX_LEVEL {
      CellIsParsed(s, c);
    }
  }

  lemma NulIsEnd(s: seq<byte>, q: nat)
    requires 0 !in s && q <= |s| && At(s, q) == 0
    ensures q == |s|
  {
  }

  lemma CellIsParsed(s: seq<byte>, c: Cell)
    requires IsCell(c) && CellText(c) == s
    ensures Parse(s) == if Nesting(TreeOf(c.value)) <= MAX_LEVEL then Some(TreeOf(c.value)) else None
  {
    hide Value, IsVal, ValText, TreeOf, Nesting, OccursAt, AreBlanks, Look, Parse, CellText;
    assert s[0..|s|] == s;
    OccursHere(s, 0, |s|, CellText(c));
    CellLength(c);
    WholeCell(s, c);
  }

  lemma CellLength(c: Cell)
    requires IsCell(c)
    ensures |CellText(c)| == |c.before| + |ValText(c.value)| + |c.after|
  {
    hide IsVal, ValText;
  }

  lemma WholeCell(s: seq<byte>, c: Cell)
    requires IsCell(c) && OccursAt(s, 0, CellText(c)) && |s| == |c.before| + |ValText(c.value)| + |c.after|
    ensures Parse(s) == if Nesting(TreeOf(c.value)) <= MAX_LEVEL then Some(TreeOf(c.value)) else None
  {
    hide Value, IsVal, ValText, TreeOf, Nesting, OccursAt, AreBlanks, Look, Parse, CellText, Outcome, Ends;
    CellStarts(s, 0, c);
    var j := |c.before|;
    var x := j + |ValText(c.value)|;
    LastBlanks(s, x, c.after);
    ValueParsed(s, j, c.value, 0);
    ValueLooks(s, 0, j, 0);
    WholeText(s, x, TreeOf(c.value), Nesting(TreeOf(c.value)) <= MAX_LEVEL);
  }

  lemma LastBlanks(s: seq<byte>, x: nat, w: seq<byte>)
    requires AreBlanks(w) && OccursAt(s, x, w) && x + |w| == |s|
    ensures Ends(At(s, x)) && Look(s, x) == |s|
  {
    AtPart(s, x, w);
    LookPast(s, x, w);
  }

  lemma WholeText(s: seq<byte>, x: nat, v: Node, fits: bool)
    requires x <= |s| && Outcome(Value(s, 0, 0), v, x, fits) && Look(s, x) == |s|
    ensures Parse(s) == if fits then Some(v) else None
  {
    hide Value, Look;
  }
}
