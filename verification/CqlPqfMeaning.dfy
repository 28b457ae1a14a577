/** What becomes of a CQL tree on its way through prefix notation, src/cqltransform.c and src/pquery.c:
    exactly when the text that is emitted reads back as the tree, and that it then has its value. */
module CqlPqfMeaning {
  import opened Bytes
  import opened Chars
  import opened CqlTree
  import opened Pqf
  import opened PqfPieces
  import opened PqfReading
  import opened CqlToPqf

  // ---- the expression a tree stands for

  /** A word as prefix notation shows it; a word that is not accepted as it is. */
  function WordText(q: Search, w: string, accepts: Accepts): string {
    var m := accepts(q, w);
    if m.Some? then Body(m.value) else w
  }

  function WordsTree(q: Search, ws: seq<string>, op: Operator, accepts: Accepts): Expr
    requires |ws| >= 1
    decreases |ws|
  {
    var leaf := Leaf(Word(WordText(q, ws[0], accepts)));
    if |ws| == 1 then leaf else Node(op, leaf, WordsTree(q, ws[1..], op, accepts))
  }

  /** A tree joined with the values of the modifiers, the first value innermost. */
  function ModifierTree(e: Expr, ms: seq<Valued>): Expr
    decreases |ms|
  {
    if ms == [] then e else ModifierTree(Node(PqfProx(MODIFIER_PROX), e, Leaf(Word(ms[0].value))), ms[1..])
  }

  function SearchTree(q: Search, accepts: Accepts): Expr {
    match q
    case Named(name) => Leaf(ResultSet(name))
    case Search(_, _, relation, _, _, ms) =>
      ModifierTree(WordsTree(q, SearchWords(q), if relation == Any then PqfOr else PqfAnd, accepts), ms)
  }

  function OperatorOf(op: Connective, ms: seq<Modifier>, units: string -> nat): Operator {
    match op
    case CqlAnd => PqfAnd
    case CqlOr => PqfOr
    case CqlNot => PqfNot
    case CqlProx =>
      var st := ProxLoop(PROX_START, ms, units);
      PqfProx(Parameters(if st.Some? then st.value else PROX_START))
  }

  function TreeOf(c: Cql<Search>, accepts: Accepts, units: string -> nat): Expr {
    match c
    case Clause(q) => SearchTree(q, accepts)
    case Boolean(op, ms, l, r) => Node(OperatorOf(op, ms, units), TreeOf(l, accepts, units), TreeOf(r, accepts, units))
    case Sort(s) => TreeOf(s, accepts, units)
  }

  // ---- errors

  predicate AcceptsAll(q: Search, ws: seq<string>, accepts: Accepts) {
    forall w <- ws :: accepts(q, w).Some?
  }

  /** Everything but the terms is supported, and so are the terms of searches without valued
      modifiers. */
  predicate Supported(c: Cql<Search>, accepts: Accepts, units: string -> nat) {
    match c
    case Clause(q) => q.Named? || SearchSupported(q, accepts)
    case Boolean(op, ms, l, r) =>
      && (if op == CqlProx then ProxLoop(PROX_START, ms, units).Some? else ms == [])
      && Supported(l, accepts, units) && Supported(r, accepts, units)
    case Sort(s) => Supported(s, accepts, units)
  }

  predicate SearchSupported(q: Search, accepts: Accepts)
    requires q.Search?
  {
    && q.inContextSet && q.mapped && (forall m <- q.modifiers :: m.relationOk && m.indexOk)
    && (q.modifiers == [] ==> AcceptsAll(q, SearchWords(q), accepts))
  }

  lemma {:induction false} WordsError(q: Search, ws: seq<string>, op: Kind, accepts: Accepts)
    requires |ws| >= 1
    ensures EmitWords(q, ws, op, accepts).error <==> !AcceptsAll(q, ws, accepts)
    decreases |ws|
  {
    assert ws == [ws[0]] + ws[1..];
    if |ws| > 1 {
      WordsError(q, ws[1..], op, accepts);
    }
  }

  lemma {:induction false} ModifierErrors(ms: seq<Valued>)
    ensures EmitModifierOps(ms).error <==> exists m <- ms :: !m.relationOk
    ensures EmitModifierValues(ms).error <==> exists m <- ms :: !m.indexOk
  {
    hide ProxPieces;
    if ms != [] {
      ModifierErrors(ms[1..]);
      assert ms == [ms[0]] + ms[1..];
    }
  }

  /** An error is reported exactly for an unsupported tree; a rejected term of a search with valued
      modifiers goes unreported. */
  lemma {:induction false} ErrorsReported(c: Cql<Search>, accepts: Accepts, units: string -> nat)
    ensures Emit(c, accepts, units).error <==> !Supported(c, accepts, units)
  {
    hide EmitWords, EmitModifierOps, EmitModifierValues, ProxLoop, WordList, ProxPieces, Parameters;
    match c
    case Clause(q) =>
      if q.Search? {
        ModifierErrors(q.modifiers);
        WordsError(q, SearchWords(q), SearchOp(q), accepts);
      }
    case Boolean(_, _, l, r) =>
      ErrorsReported(l, accepts, units);
      ErrorsReported(r, accepts, units);
    case Sort(s) =>
      ErrorsReported(s, accepts, units);
  }

  // ---- all pieces of a tree, with those that were not printed

  function MissingWords(q: Search, ws: seq<string>, op: Kind, accepts: Accepts): seq<Piece>
    requires |ws| >= 1
    decreases |ws|
  {
    var word := NoWord(WordText(q, ws[0], accepts));
    if |ws| == 1 then [word] else [NoOp(op), word] + MissingWords(q, ws[1..], op, accepts)
  }

  function FullWords(q: Search, ws: seq<string>, op: Kind, accepts: Accepts): seq<Piece>
    requires |ws| >= 1
    decreases |ws|
  {
    var text := WordText(q, ws[0], accepts);
    var word := if accepts(q, ws[0]).Some? then Quoted(text) else NoWord(text);
    if |ws| == 1 then [word]
    else if accepts(q, ws[0]).None? then [Op(op), word] + MissingWords(q, ws[1..], op, accepts)
    else [Op(op), word] + FullWords(q, ws[1..], op, accepts)
  }

  function Values(ms: seq<Valued>): seq<Piece> {
    if ms == [] then [] else [Plain(ms[0].value)] + Values(ms[1..])
  }

  function Operators(n: nat): seq<Piece> {
    if n == 0 then [] else ProxPieces(MODIFIER_PROX) + Operators(n - 1)
  }

  function FullSearch(q: Search, accepts: Accepts): seq<Piece> {
    match q
    case Named(name) => [Op(Set), SetName(name)]
    case Search(_, _, _, _, _, ms) =>
      Operators(|ms|) + FullWords(q, SearchWords(q), SearchOp(q), accepts) + Values(ms)
  }

  function Full(c: Cql<Search>, accepts: Accepts, units: string -> nat): seq<Piece> {
    match c
    case Clause(q) => FullSearch(q, accepts)
    case Boolean(op, ms, l, r) =>
      EmitOperator(op, ms, units).pieces + Full(l, accepts, units) + Full(r, accepts, units)
    case Sort(s) => Full(s, accepts, units)
  }

  // ---- they print the same text

  lemma {:induction false} TextJoin(a: seq<Piece>, b: seq<Piece>)
    ensures Text(a + b) == Text(a) + Text(b)
  {
    hide PieceText;
    if a == [] {
      assert a + b == b;
    } else {
      assert (a + b)[1..] == a[1..] + b;
      TextJoin(a[1..], b);
    }
  }

  lemma {:induction false} MissingText(q: Search, ws: seq<string>, op: Kind, accepts: Accepts)
    requires |ws| >= 1
    ensures Text(MissingWords(q, ws, op, accepts)) == ""
    decreases |ws|
  {
    hide Text, PieceText, WordText;
    var text := WordText(q, ws[0], accepts);
    NoText(text);
    if |ws| > 1 {
      MissingText(q, ws[1..], op, accepts);
      TextJoin([NoOp(op), NoWord(text)], MissingWords(q, ws[1..], op, accepts));
      SilentPair(op, text);
    }
  }

  lemma SilentPair(op: Kind, text: string)
    ensures Text([NoOp(op), NoWord(text)]) == ""
  {
    hide Text;
    TextJoin([NoOp(op)], [NoWord(text)]);
    TextOne(NoOp(op));
    TextOne(NoWord(text));
    assert [NoOp(op)] + [NoWord(text)] == [NoOp(op), NoWord(text)];
  }

  lemma TextOne(p: Piece)
    ensures Text([p]) == PieceText(p)
  {
    assert Text([]) == "";
  }

  lemma {:induction false} FullWordsText(q: Search, ws: seq<string>, op: Kind, accepts: Accepts)
    requires |ws| >= 1
    ensures Text(FullWords(q, ws, op, accepts)) == Text(EmitWords(q, ws, op, accepts).pieces)
    decreases |ws|
  {
    hide Text, PieceText, MissingWords, WordText;
    var text := WordText(q, ws[0], accepts);
    assert accepts(q, ws[0]).Some? ==> text == Body(accepts(q, ws[0]).value) by { WordTextIs(q, ws[0], accepts); }
    if |ws| == 1 {
      NoText(text);
    } else if accepts(q, ws[0]).None? {
      MissingText(q, ws[1..], op, accepts);
      NoText(text);
      TextJoin([Op(op), NoWord(text)], MissingWords(q, ws[1..], op, accepts));
      TextJoin([Op(op)], [NoWord(text)]);
      assert [Op(op)] + [NoWord(text)] == [Op(op), NoWord(text)];
      assert Text([Op(op)]) + "" + "" == Text([Op(op)]);
    } else {
      FullWordsText(q, ws[1..], op, accepts);
      TextJoin([Op(op), Quoted(text)], FullWords(q, ws[1..], op, accepts));
      TextJoin([Op(op), Quoted(text)], EmitWords(q, ws[1..], op, accepts).pieces);
    }
  }

  lemma WordTextIs(q: Search, w: string, accepts: Accepts)
    ensures accepts(q, w).Some? ==> WordText(q, w, accepts) == Body(accepts(q, w).value)
  {
  }

  lemma NoText(t: string)
    ensures Text([NoWord(t)]) == "" && Text([]) == ""
  {
    TextOne(NoWord(t));
  }

  lemma {:induction false} ModifierPieces(ms: seq<Valued>)
    ensures !EmitModifierOps(ms).error ==> EmitModifierOps(ms).pieces == Operators(|ms|)
    ensures !EmitModifierValues(ms).error ==> EmitModifierValues(ms).pieces == Values(ms)
  {
    hide ProxPieces;
    if ms != [] {
      ModifierPieces(ms[1..]);
    }
  }

  lemma FullSearchText(q: Search, accepts: Accepts)
    requires !EmitSearch(q, accepts).error
    ensures Text(FullSearch(q, accepts)) == Text(EmitSearch(q, accepts).pieces)
  {
    hide Text, EmitWords, FullWords, EmitModifierOps, EmitModifierValues, Operators, Values, WordList;
    if q.Search? {
      var ms := q.modifiers;
      var words, full := EmitWords(q, SearchWords(q), SearchOp(q), accepts).pieces,
          FullWords(q, SearchWords(q), SearchOp(q), accepts);
      ModifierPieces(ms);
      FullWordsText(q, SearchWords(q), SearchOp(q), accepts);
      var ops, values := Operators(|ms|), Values(ms);
      TextJoin(ops + full, values);
      TextJoin(ops, full);
      TextJoin(ops + words, values);
      TextJoin(ops, words);
      assert ms == [] ==> Text(values) == "" by { NoValues(); }
    }
  }

  lemma NoValues()
    ensures Text(Values([])) == ""
  {
  }

  lemma {:induction false} FullText(c: Cql<Search>, accepts: Accepts, units: string -> nat)
    requires !Emit(c, accepts, units).error
    ensures Text(Full(c, accepts, units)) == Text(Emit(c, accepts, units).pieces)
  {
    hide Text, FullSearch, EmitSearch, EmitOperator;
    match c
    case Clause(q) => FullSearchText(q, accepts);
    case Boolean(op, ms, l, r) =>
      var head := EmitOperator(op, ms, units).pieces;
      FullText(l, accepts, units);
      FullText(r, accepts, units);
      TextJoin(head + Full(l, accepts, units), Full(r, accepts, units));
      TextJoin(head, Full(l, accepts, units));
      TextJoin(head + Emit(l, accepts, units).pieces, Emit(r, accepts, units).pieces);
      TextJoin(head, Emit(l, accepts, units).pieces);
    case Sort(s) => FullText(s, accepts, units);
  }

  // ---- they stand for the expression of the tree

  lemma PatternsJoin(a: seq<Piece>, b: seq<Piece>)
    ensures PatternsOf(a + b) == PatternsOf(a) + PatternsOf(b)
  {
  }

  lemma ProxPatterns(ps: seq<string>)
    requires |ps| == 6
    ensures PatternsOf(ProxPieces(ps)) == OperatorPatterns(PqfProx(ps))
  {
  }

  lemma {:induction false} MissingPatterns(q: Search, ws: seq<string>, op: Operator, accepts: Accepts)
    requires |ws| >= 1 && (op == PqfAnd || op == PqfOr)
    ensures var k := if op == PqfAnd then And else Or;
            PatternsOf(MissingWords(q, ws, k, accepts)) == Patterns(WordsTree(q, ws, op, accepts))
    decreases |ws|
  {
    hide WordText, PatternsOf, Patterns;
    var k := if op == PqfAnd then And else Or;
    var text := WordText(q, ws[0], accepts);
    if |ws| == 1 {
      WordPattern(NoWord(text), text);
    } else {
      MissingPatterns(q, ws[1..], op, accepts);
      PatternsJoin([NoOp(k), NoWord(text)], MissingWords(q, ws[1..], k, accepts));
      JoinPattern(NoOp(k), NoWord(text), op, text, WordsTree(q, ws[1..], op, accepts));
    }
  }

  lemma WordPattern(word: Piece, text: string)
    requires word == NoWord(text) || word == Quoted(text)
    ensures PatternsOf([word]) == Patterns(Leaf(Word(text)))
  {
  }

  lemma JoinPattern(join: Piece, word: Piece, op: Operator, text: string, rest: Expr)
    requires op == PqfAnd || op == PqfOr
    requires var k := if op == PqfAnd then And else Or; join == Op(k) || join == NoOp(k)
    requires word == NoWord(text) || word == Quoted(text)
    ensures Patterns(Node(op, Leaf(Word(text)), rest)) == PatternsOf([join, word]) + Patterns(rest)
  {
    assert PatternsOf([join, word]) == OperatorPatterns(op) + [OfText(text)];
  }

  lemma {:induction false} WordsPatterns(q: Search, ws: seq<string>, op: Operator, accepts: Accepts)
    requires |ws| >= 1 && (op == PqfAnd || op == PqfOr)
    ensures var k := if op == PqfAnd then And else Or;
            PatternsOf(FullWords(q, ws, k, accepts)) == Patterns(WordsTree(q, ws, op, accepts))
    decreases |ws|
  {
    hide WordText, PatternsOf, Patterns, MissingWords;
    var k := if op == PqfAnd then And else Or;
    var text := WordText(q, ws[0], accepts);
    var word := if accepts(q, ws[0]).Some? then Quoted(text) else NoWord(text);
    if |ws| == 1 {
      WordPattern(word, text);
    } else {
      JoinPattern(Op(k), word, op, text, WordsTree(q, ws[1..], op, accepts));
      if accepts(q, ws[0]).None? {
        MissingPatterns(q, ws[1..], op, accepts);
        PatternsJoin([Op(k), word], MissingWords(q, ws[1..], k, accepts));
      } else {
        WordsPatterns(q, ws[1..], op, accepts);
        PatternsJoin([Op(k), word], FullWords(q, ws[1..], k, accepts));
      }
    }
  }

  lemma {:induction false} OperatorsSnoc(n: nat)
    ensures Operators(n) + ProxPieces(MODIFIER_PROX) == ProxPieces(MODIFIER_PROX) + Operators(n)
  {
    hide ProxPieces;
    var p := ProxPieces(MODIFIER_PROX);
    if n == 0 {
      assert [] + p == p + [];
    } else {
      OperatorsSnoc(n - 1);
      assert p + Operators(n - 1) + p == p + (Operators(n - 1) + p);
    }
  }

  lemma {:induction false} ModifierPatterns(e: Expr, words: seq<Piece>, ms: seq<Valued>)
    requires PatternsOf(words) == Patterns(e)
    ensures PatternsOf(Operators(|ms|) + words + Values(ms)) == Patterns(ModifierTree(e, ms))
    decreases |ms|
  {
    hide ProxPieces, OperatorPatterns, PatternsOf;
    if ms == [] {
      assert [] + words + [] == words;
    } else {
      var p, value := ProxPieces(MODIFIER_PROX), Plain(ms[0].value);
      var inner := Node(PqfProx(MODIFIER_PROX), e, Leaf(Word(ms[0].value)));
      var more := p + words + [value];
      ProxPatterns(MODIFIER_PROX);
      PatternsJoin(p + words, [value]);
      PatternsJoin(p, words);
      assert PatternsOf([value]) == [OfText(ms[0].value)] by { PlainPattern(ms[0].value); }
      ModifierPatterns(inner, more, ms[1..]);
      OperatorsSnoc(|ms| - 1);
      var before, after := Operators(|ms| - 1), Values(ms[1..]);
      assert before + (p + words + [value]) + after == (before + p) + words + ([value] + after);
    }
  }

  lemma PlainPattern(t: string)
    ensures PatternsOf([Plain(t)]) == [OfText(t)]
  {
  }

  lemma SearchPatterns(q: Search, accepts: Accepts)
    ensures PatternsOf(FullSearch(q, accepts)) == Patterns(SearchTree(q, accepts))
  {
    hide Operators, Values, FullWords, WordsTree, ModifierTree, WordList;
    if q.Search? {
      var op := if q.relation == Any then PqfOr else PqfAnd;
      WordsPatterns(q, SearchWords(q), op, accepts);
      var ws := SearchWords(q);
      ModifierPatterns(WordsTree(q, ws, op, accepts), FullWords(q, ws, SearchOp(q), accepts), q.modifiers);
    }
  }

  lemma {:induction false} TreePatterns(c: Cql<Search>, accepts: Accepts, units: string -> nat)
    requires !Emit(c, accepts, units).error
    ensures PatternsOf(Full(c, accepts, units)) == Patterns(TreeOf(c, accepts, units))
  {
    hide PatternsOf, FullSearch, EmitSearch, SearchTree, ProxLoop, Parameters;
    match c
    case Clause(q) => SearchPatterns(q, accepts);
    case Boolean(op, ms, l, r) =>
      TreePatterns(l, accepts, units);
      TreePatterns(r, accepts, units);
      HeadPatterns(op, ms, units);
      var head := EmitOperator(op, ms, units).pieces;
      PatternsJoin(head + Full(l, accepts, units), Full(r, accepts, units));
      PatternsJoin(head, Full(l, accepts, units));
    case Sort(s) => TreePatterns(s, accepts, units);
  }

  lemma HeadPatterns(op: Connective, ms: seq<Modifier>, units: string -> nat)
    requires !EmitOperator(op, ms, units).error
    ensures PatternsOf(EmitOperator(op, ms, units).pieces) == OperatorPatterns(OperatorOf(op, ms, units))
  {
    hide ProxLoop, Parameters;
    if op == CqlProx {
      ProxPatterns(Parameters(ProxLoop(PROX_START, ms, units).value));
    }
  }

  // ---- when all of them are readable

  /** Every term is accepted, and can be read in the quotes that it is printed in; every modifier value
      can be read without quotes; every result set name can be read in quotes; and no proximity has a
      negative distance. */
  predicate Faithful(c: Cql<Search>, accepts: Accepts, units: string -> nat) {
    match c
    case Clause(q) => SearchFaithful(q, accepts)
    case Boolean(op, ms, l, r) =>
      && (op == CqlProx ==>
            var st := ProxLoop(PROX_START, ms, units); st.Some? ==> Distance(st.value) >= 0)
      && Faithful(l, accepts, units) && Faithful(r, accepts, units)
    case Sort(s) => Faithful(s, accepts, units)
  }

  predicate WordFaithful(q: Search, w: string, accepts: Accepts) {
    accepts(q, w).Some? && Readable(Quoted(Body(accepts(q, w).value)))
  }

  predicate WordsFaithful(q: Search, ws: seq<string>, accepts: Accepts) {
    forall w <- ws :: WordFaithful(q, w, accepts)
  }

  predicate SearchFaithful(q: Search, accepts: Accepts) {
    match q
    case Named(name) => Readable(SetName(name))
    case Search(_, _, _, _, _, ms) =>
      && WordsFaithful(q, SearchWords(q), accepts)
      && (forall m <- ms :: Readable(Plain(m.value)))
  }

  lemma ReadableJoin(a: seq<Piece>, b: seq<Piece>)
    ensures AllReadable(a + b) <==> AllReadable(a) && AllReadable(b)
    ensures Known(a + b) <==> Known(a) && Known(b)
  {
    hide Readable;
    assert forall p <- a :: p in a + b;
    assert forall p <- b :: p in a + b;
  }

  lemma MissingUnreadable(q: Search, ws: seq<string>, op: Kind, accepts: Accepts)
    requires |ws| >= 1 && IsOperator(op)
    ensures Known(MissingWords(q, ws, op, accepts))
    decreases |ws|
  {
    if |ws| > 1 {
      MissingUnreadable(q, ws[1..], op, accepts);
    }
  }

  lemma FaithfulStep(q: Search, ws: seq<string>, accepts: Accepts)
    requires |ws| >= 1
    ensures WordsFaithful(q, ws, accepts) <==> WordFaithful(q, ws[0], accepts) && WordsFaithful(q, ws[1..], accepts)
  {
    hide WordFaithful;
    assert ws == [ws[0]] + ws[1..];
  }

  /** A word and its operator. */
  lemma WordReadable(q: Search, w: string, op: Kind, accepts: Accepts)
    requires IsOperator(op)
    ensures var text := WordText(q, w, accepts);
            var word := if accepts(q, w).Some? then Quoted(text) else NoWord(text);
            && Known([word]) && Known([Op(op), word])
            && (AllReadable([word]) <==> WordFaithful(q, w, accepts))
            && (AllReadable([Op(op), word]) <==> WordFaithful(q, w, accepts))
  {
    hide Clean, AttrStart;
    var text := WordText(q, w, accepts);
    var word := if accepts(q, w).Some? then Quoted(text) else NoWord(text);
    assert word in [word] && word in [Op(op), word];
  }

  lemma {:induction false} WordsReadable(q: Search, ws: seq<string>, op: Kind, accepts: Accepts)
    requires |ws| >= 1 && IsOperator(op)
    ensures Known(FullWords(q, ws, op, accepts))
    ensures AllReadable(FullWords(q, ws, op, accepts)) <==> WordsFaithful(q, ws, accepts)
    decreases |ws|
  {
    hide MissingWords, WordText, WordFaithful, AllReadable, Known, WordsFaithful;
    FaithfulStep(q, ws, accepts);
    WordReadable(q, ws[0], op, accepts);
    var text := WordText(q, ws[0], accepts);
    if |ws| == 1 {
      assert WordsFaithful(q, ws[1..], accepts) by { NoWords(q, ws[1..], accepts); }
    } else if accepts(q, ws[0]).None? {
      MissingUnreadable(q, ws[1..], op, accepts);
      ReadableJoin([Op(op), NoWord(text)], MissingWords(q, ws[1..], op, accepts));
      assert !WordFaithful(q, ws[0], accepts) by { Unfaithful(q, ws[0], accepts); }
    } else {
      WordsReadable(q, ws[1..], op, accepts);
      ReadableJoin([Op(op), Quoted(text)], FullWords(q, ws[1..], op, accepts));
    }
  }

  lemma NoWords(q: Search, ws: seq<string>, accepts: Accepts)
    requires ws == []
    ensures WordsFaithful(q, ws, accepts)
  {
  }

  lemma Unfaithful(q: Search, w: string, accepts: Accepts)
    requires accepts(q, w).None?
    ensures !WordFaithful(q, w, accepts)
  {
  }

  lemma {:induction false} ValuesReadable(ms: seq<Valued>)
    ensures Known(Values(ms))
    ensures AllReadable(Values(ms)) <==> forall m <- ms :: Readable(Plain(m.value))
  {
    hide Readable;
    if ms != [] {
      ValuesReadable(ms[1..]);
      assert ms == [ms[0]] + ms[1..];
      ReadableJoin([Plain(ms[0].value)], Values(ms[1..]));
      assert Plain(ms[0].value) in [Plain(ms[0].value)];
    }
  }

  lemma {:induction false} NumberReadable(t: string)
    requires t != "" && forall k :: 0 <= k < |t| ==> t[k] == '-' || IsDigit(t[k])
    ensures Readable(Plain(t))
  {
    PlainClean(t);
  }

  lemma ProxPiecesReadable(ps: seq<string>)
    requires |ps| == 6 && forall k :: 0 <= k < 6 ==> Readable(Plain(ps[k]))
    ensures AllReadable(ProxPieces(ps)) && Known(ProxPieces(ps))
  {
    hide Clean, AttrStart, WordKind;
  }

  lemma ParametersReadable(st: ProxState)
    ensures AllReadable(ProxPieces(Parameters(st))) && Known(ProxPieces(Parameters(st)))
    ensures ProxReadable(Parameters(st)) <==> Distance(st) >= 0
  {
    hide IntText, Readable;
    var ps := Parameters(st);
    NumberReadable("0");
    NumberReadable("1");
    NumberReadable(IntText(Distance(st)));
    NumberReadable(IntText(st.relation));
    NumberReadable(IntText(st.unit));
    LetterReadable();
    forall k | 0 <= k < 6 ensures Readable(Plain(ps[k])) { }
    ProxPiecesReadable(ps);
  }

  lemma LetterReadable()
    ensures Readable(Plain("k"))
  {
    PlainClean("k");
  }

  lemma ModifierProxReadable()
    ensures AllReadable(ProxPieces(MODIFIER_PROX)) && Known(ProxPieces(MODIFIER_PROX)) && ProxReadable(MODIFIER_PROX)
  {
    hide Readable;
    NumberReadable("0");
    NumberReadable("8");
    LetterReadable();
    forall k | 0 <= k < 6 ensures Readable(Plain(MODIFIER_PROX[k])) { }
    ProxPiecesReadable(MODIFIER_PROX);
  }

  lemma {:induction false} OperatorsReadable(n: nat)
    ensures AllReadable(Operators(n)) && Known(Operators(n))
  {
    hide AllReadable, Known, ProxPieces;
    if n == 0 {
      NothingReadable();
    } else {
      OperatorsReadable(n - 1);
      ModifierProxReadable();
      ReadableJoin(ProxPieces(MODIFIER_PROX), Operators(n - 1));
    }
  }

  lemma NothingReadable()
    ensures AllReadable([]) && Known([])
  {
  }

  lemma {:induction false} WordsProxOk(q: Search, ws: seq<string>, op: Operator, accepts: Accepts)
    requires |ws| >= 1 && !op.PqfProx?
    ensures ProxOk(WordsTree(q, ws, op, accepts))
    decreases |ws|
  {
    if |ws| > 1 {
      WordsProxOk(q, ws[1..], op, accepts);
    }
  }

  lemma {:induction false} ModifierProxOk(e: Expr, ms: seq<Valued>)
    requires ProxOk(e)
    ensures ProxOk(ModifierTree(e, ms))
    decreases |ms|
  {
    hide ProxReadable;
    if ms != [] {
      ModifierProxReadable();
      ModifierProxOk(Node(PqfProx(MODIFIER_PROX), e, Leaf(Word(ms[0].value))), ms[1..]);
    }
  }

  lemma SearchReadable(q: Search, accepts: Accepts)
    ensures Known(FullSearch(q, accepts)) && ProxOk(SearchTree(q, accepts))
    ensures AllReadable(FullSearch(q, accepts)) <==> SearchFaithful(q, accepts)
  {
    hide Readable, FullWords, Operators, Values, WordsTree, ModifierTree, WordList, AllReadable, Known, WordsFaithful;
    match q
    case Named(name) =>
      NameReadable(name);
    case Search(_, _, relation, _, _, ms) =>
      var op := if relation == Any then PqfOr else PqfAnd;
      var ops, words, values := Operators(|ms|), FullWords(q, SearchWords(q), SearchOp(q), accepts), Values(ms);
      OperatorsReadable(|ms|);
      WordsReadable(q, SearchWords(q), SearchOp(q), accepts);
      ValuesReadable(ms);
      ReadableJoin(ops + words, values);
      ReadableJoin(ops, words);
      WordsProxOk(q, SearchWords(q), op, accepts);
      ModifierProxOk(WordsTree(q, SearchWords(q), op, accepts), ms);
  }

  lemma NameReadable(name: string)
    ensures Known([Op(Set), SetName(name)]) && (AllReadable([Op(Set), SetName(name)]) <==> Readable(SetName(name)))
  {
    hide Clean, AttrStart;
    assert SetName(name) in [Op(Set), SetName(name)];
  }

  lemma {:induction false} TreeReadable(c: Cql<Search>, accepts: Accepts, units: string -> nat)
    requires !Emit(c, accepts, units).error
    ensures Known(Full(c, accepts, units))
    ensures AllReadable(Full(c, accepts, units)) && ProxOk(TreeOf(c, accepts, units)) <==> Faithful(c, accepts, units)
  {
    hide AllReadable, Known, FullSearch, EmitSearch, SearchTree, SearchFaithful, ProxLoop, Parameters, Distance,
         ProxReadable;
    match c
    case Clause(q) => SearchReadable(q, accepts);
    case Boolean(op, ms, l, r) =>
      TreeReadable(l, accepts, units);
      TreeReadable(r, accepts, units);
      var head := EmitOperator(op, ms, units).pieces;
      HeadReadable(op, ms, units);
      ReadableJoin(head + Full(l, accepts, units), Full(r, accepts, units));
      ReadableJoin(head, Full(l, accepts, units));
    case Sort(s) => TreeReadable(s, accepts, units);
  }

  lemma HeadReadable(op: Connective, ms: seq<Modifier>, units: string -> nat)
    requires !EmitOperator(op, ms, units).error
    ensures Known(EmitOperator(op, ms, units).pieces) && AllReadable(EmitOperator(op, ms, units).pieces)
    ensures OperatorOf(op, ms, units).PqfProx? <==> op == CqlProx
    ensures op == CqlProx ==>
              (ProxReadable(OperatorOf(op, ms, units).parameters) <==>
               Distance(ProxLoop(PROX_START, ms, units).value) >= 0)
  {
    hide ProxLoop, Parameters, Distance, ProxReadable, ProxPieces;
    if op == CqlProx {
      ParametersReadable(ProxLoop(PROX_START, ms, units).value);
    }
  }

  // ---- main results

  /** For every tree emitted without a reported error: the text reads back as the tree if and only if the
      tree is faithful. */
  lemma ReadBackExactly(c: Cql<Search>, accepts: Accepts, units: string -> nat)
    requires !Emit(c, accepts, units).error
    ensures Read(Text(Emit(c, accepts, units).pieces)) == Some(TreeOf(c, accepts, units)) <==>
              Faithful(c, accepts, units)
  {
    hide Read, Text, Emit, Full, TreeOf, Faithful, Known, AllReadable, PatternsOf, Patterns, ProxOk, MatchAll, Lex;
    var text := Text(Emit(c, accepts, units).pieces);
    FullText(c, accepts, units);
    TreePatterns(c, accepts, units);
    TreeReadable(c, accepts, units);
    ReadIsMatch(text, TreeOf(c, accepts, units), Full(c, accepts, units));
    assert text[0..] == text;
    ReadExactly(text, 0, Full(c, accepts, units));
  }

  /** The words a search asks for: the runs of non-blank characters of its term for "all" and "any"
      (and an empty word if the term is empty or ends in a blank), otherwise its terms. */
  function AskedWords(q: Search): seq<string>
    requires q.Search?
  {
    if q.relation == Other then [q.term] + q.extra
    else Runs(q.term, 0) + if q.term != "" && q.term[|q.term| - 1] != ' ' then [] else [""]
  }

  /** A search joined with the values of its modifiers, the innermost first. */
  function WithModifiers(v: bool, ms: seq<Valued>, w: World): bool
    decreases |ms|
  {
    if ms == [] then v
    else WithModifiers(Apply(w, PqfProx(MODIFIER_PROX), v, w.word(ms[0].value)), ms[1..], w)
  }

  /** The value of a CQL tree: "all" and plain terms ask for every word, "any" for one. */
  predicate Holds(c: Cql<Search>, accepts: Accepts, units: string -> nat, w: World) {
    match c
    case Clause(Named(name)) => w.resultSet(name)
    case Clause(Search(a, b, relation, term, extra, ms)) =>
      var q := Search(a, b, relation, term, extra, ms);
      var ws := AskedWords(q);
      WithModifiers(
        if relation == Any then exists k :: 0 <= k < |ws| && w.word(WordText(q, ws[k], accepts))
        else forall k :: 0 <= k < |ws| ==> w.word(WordText(q, ws[k], accepts)), ms, w)
    case Boolean(op, ms, l, r) =>
      Apply(w, OperatorOf(op, ms, units), Holds(l, accepts, units, w), Holds(r, accepts, units, w))
    case Sort(s) => Holds(s, accepts, units, w)
  }

  lemma {:induction false} WordsMeaning(q: Search, ws: seq<string>, op: Operator, accepts: Accepts, w: World)
    requires |ws| >= 1
    ensures op == PqfAnd ==>
              (Eval(WordsTree(q, ws, op, accepts), w) <==>
               forall k :: 0 <= k < |ws| ==> w.word(WordText(q, ws[k], accepts)))
    ensures op == PqfOr ==>
              (Eval(WordsTree(q, ws, op, accepts), w) <==>
               exists k :: 0 <= k < |ws| && w.word(WordText(q, ws[k], accepts)))
    decreases |ws|
  {
    hide WordText;
    if |ws| > 1 {
      var rest := ws[1..];
      WordsMeaning(q, rest, op, accepts, w);
      assert forall k :: 1 <= k < |ws| ==> ws[k] == rest[k - 1];
      assert forall k :: 0 <= k < |rest| ==> rest[k] == ws[k + 1];
    }
  }

  lemma {:induction false} ModifierMeaning(e: Expr, ms: seq<Valued>, w: World)
    ensures Eval(ModifierTree(e, ms), w) == WithModifiers(Eval(e, w), ms, w)
    decreases |ms|
  {
    if ms != [] {
      ModifierMeaning(Node(PqfProx(MODIFIER_PROX), e, Leaf(Word(ms[0].value))), ms[1..], w);
    }
  }

  /** The expression of a tree has the tree's value. */
  lemma {:induction false} TreeMeaning(c: Cql<Search>, accepts: Accepts, units: string -> nat, w: World)
    ensures Eval(TreeOf(c, accepts, units), w) == Holds(c, accepts, units, w)
  {
    hide WordText, ProxLoop, Parameters, WordsTree, ModifierTree, WordList, Runs, WithModifiers;
    match c
    case Clause(q) =>
      if q.Search? {
        WordListIsRuns(q.term, 0);
        assert SearchWords(q) == AskedWords(q);
        var op := if q.relation == Any then PqfOr else PqfAnd;
        WordsMeaning(q, SearchWords(q), op, accepts, w);
        ModifierMeaning(WordsTree(q, SearchWords(q), op, accepts), q.modifiers, w);
      }
    case Boolean(_, _, l, r) =>
      TreeMeaning(l, accepts, units, w);
      TreeMeaning(r, accepts, units, w);
    case Sort(s) =>
      TreeMeaning(s, accepts, units, w);
  }

  /** A faithful tree emitted without error means the same after it was read, whatever its operands
      mean. */
  lemma MeaningPreserved(c: Cql<Search>, accepts: Accepts, units: string -> nat, w: World)
    requires !Emit(c, accepts, units).error && Faithful(c, accepts, units)
    ensures var e := Read(Text(Emit(c, accepts, units).pieces));
            e.Some? && Eval(e.value, w) == Holds(c, accepts, units, w)
  {
    hide Read, Text, Emit, TreeOf, Faithful, Eval, Holds;
    ReadBackExactly(c, accepts, units);
    TreeMeaning(c, accepts, units, w);
  }

  // ---- trees without valued modifiers

  predicate Unmodified(c: Cql<Search>) {
    match c
    case Clause(q) => q.Search? ==> q.modifiers == []
    case Boolean(_, _, l, r) => Unmodified(l) && Unmodified(r)
    case Sort(s) => Unmodified(s)
  }

  /** Every term and result set name can be read in quotes, and no proximity has a negative distance. */
  predicate Quotable(c: Cql<Search>, accepts: Accepts, units: string -> nat) {
    match c
    case Clause(Named(name)) => Readable(SetName(name))
    case Clause(q) => forall w <- SearchWords(q) :: Readable(Quoted(WordText(q, w, accepts)))
    case Boolean(op, ms, l, r) =>
      && (op == CqlProx ==>
            var st := ProxLoop(PROX_START, ms, units); st.Some? ==> Distance(st.value) >= 0)
      && Quotable(l, accepts, units) && Quotable(r, accepts, units)
    case Sort(s) => Quotable(s, accepts, units)
  }

  lemma {:induction false} UnmodifiedFaithful(c: Cql<Search>, accepts: Accepts, units: string -> nat)
    requires Unmodified(c) && Supported(c, accepts, units)
    ensures Faithful(c, accepts, units) <==> Quotable(c, accepts, units)
  {
    hide Readable, ProxLoop, Distance, WordList;
    match c
    case Clause(_) =>
    case Boolean(_, _, l, r) =>
      UnmodifiedFaithful(l, accepts, units);
      UnmodifiedFaithful(r, accepts, units);
    case Sort(s) =>
      UnmodifiedFaithful(s, accepts, units);
  }

  /** Without valued modifiers no rejected term goes unreported: the text reads back as the tree exactly
      if all that is quoted can be read in quotes. */
  lemma UnmodifiedExactly(c: Cql<Search>, accepts: Accepts, units: string -> nat)
    requires Unmodified(c) && !Emit(c, accepts, units).error
    ensures Read(Text(Emit(c, accepts, units).pieces)) == Some(TreeOf(c, accepts, units)) <==>
              Quotable(c, accepts, units)
  {
    hide Read, Text, Emit, TreeOf, Faithful, Quotable, Unmodified, Supported;
    ErrorsReported(c, accepts, units);
    UnmodifiedFaithful(c, accepts, units);
    ReadBackExactly(c, accepts, units);
  }

  // ---- what faithful means for a term

  /** A backslash at the end that escapes nothing. */
  predicate LoneBackslash(t: string) {
    t != "" && if t[0] == '\\' then |t| == 1 || LoneBackslash(t[2..]) else LoneBackslash(t[1..])
  }

  lemma {:induction false} CleanJoin(a: string, b: string, sep: char)
    requires Clean(a, sep)
    ensures Clean(a + b, sep) <==> Clean(b, sep)
    decreases |a|
  {
    if a == "" {
      assert a + b == b;
    } else if a[0] == '\\' {
      assert (a + b)[2..] == a[2..] + b;
      CleanJoin(a[2..], b, sep);
    } else {
      assert (a + b)[1..] == a[1..] + b;
      CleanJoin(a[1..], b, sep);
    }
  }

  lemma CharClean(t: string, i: nat, masked: bool)
    requires i < |t|
    ensures Clean(ShownAt(t, i, masked), '\"') <==> Escapes(t, i) || t[i] != '\\'
  {
    var c := if Escapes(t, i) then t[i + 1] else t[i];
    CleanShort(c);
  }

  /** All that is printed for one character. */
  lemma CleanShort(c: char)
    ensures c != '\"' && c != '\\' ==> Clean([c], '\"')
    ensures Clean(['\\', c], '\"') && !Clean("\\", '\"') && Clean("?\\\\", '\"')
    ensures c != '\"' && c != '\\' ==> Clean("\\\\" + [c], '\"')
  {
    assert Clean("", '\"');
    assert [c][1..] == "" && ['\\', c][2..] == "" && "?\\\\"[1..] == "\\\\" && "\\\\"[2..] == "";
    assert ("\\\\" + [c])[2..] == [c];
  }

  lemma {:induction false} ShownClean(t: string, i: nat, masked: bool)
    requires i <= |t|
    ensures Clean(Shown(t, i, masked), '\"') <==> !LoneBackslash(t[i..])
    decreases |t| - i
  {
    hide Clean, ShownAt;
    if i == |t| {
      CleanEnd();
    } else {
      CharClean(t, i, masked);
      assert t[i..][0] == t[i] && t[i..][1..] == t[i + 1..];
      if t[i] == '\\' && i == |t| - 1 {
        assert Shown(t, i, masked) == ShownAt(t, i, masked) + "" == ShownAt(t, i, masked);
      } else {
        var next := if Escapes(t, i) then i + 2 else i + 1;
        assert Escapes(t, i) ==> t[i..][2..] == t[i + 2..];
        ShownClean(t, next, masked);
        CleanJoin(ShownAt(t, i, masked), Shown(t, next, masked), '\"');
      }
    }
  }

  lemma CleanEnd()
    ensures Clean("", '\"')
  {
  }

  /** A term whose escapes are worked out is readable unless it ends in a lone backslash or begins like
      an attribute. */
  lemma TermReadable(m: Mode)
    requires m.process
    ensures Readable(Quoted(Body(m))) <==> !LoneBackslash(m.cut) && !AttrStart(Body(m), 0)
  {
    hide Clean, LoneBackslash, Shown, AttrStart;
    ShownClean(m.cut, 0, m.masked);
    assert m.cut[0..] == m.cut;
  }

  // ---- trees that do not come back

  /** Every term is accepted as it is. */
  const ACCEPT_ALL: Accepts := (q: Search, t: string) => Some(Mode(t, true, false))

  function One(term: string, ms: seq<Valued>): Cql<Search> { Clause(Search(true, true, Other, term, [], ms)) }

  lemma OneSearch(term: string, ms: seq<Valued>, accepts: Accepts, units: string -> nat)
    requires (forall m <- ms :: m.relationOk && m.indexOk) &&
        (ms == [] ==> accepts(One(term, ms).clause, term).Some?)
    ensures !Emit(One(term, ms), accepts, units).error
    ensures Read(Text(Emit(One(term, ms), accepts, units).pieces)) == Some(TreeOf(One(term, ms), accepts, units)) <==>
              WordFaithful(One(term, ms).clause, term, accepts) && forall m <- ms :: Readable(Plain(m.value))
  {
    hide Emit, Read, Text, TreeOf, Readable, WordFaithful;
    ErrorsReported(One(term, ms), accepts, units);
    ReadBackExactly(One(term, ms), accepts, units);
    assert [term] + [] == [term] && term in [term];
  }

  /** A modifier value with a blank becomes two operands, and one that looks like an operator one more
      operator, without an error. */
  lemma ValueMisread(value: string, units: string -> nat)
    requires value == "a b" || value == "" || value == "@and" || value == "@ant"
    ensures var c := One("x", [Valued(true, true, value)]);
            !Emit(c, ACCEPT_ALL, units).error &&
            Read(Text(Emit(c, ACCEPT_ALL, units).pieces)) != Some(TreeOf(c, ACCEPT_ALL, units))
  {
    hide Readable, Read, Text, Emit, TreeOf;
    var ms := [Valued(true, true, value)];
    assert Valued(true, true, value) in ms;
    UnreadableValue(value);
    OneSearch("x", ms, ACCEPT_ALL, units);
  }

  lemma UnreadableValue(value: string)
    requires value == "a b" || value == "" || value == "@and" || value == "@ant"
    ensures !Readable(Plain(value))
  {
    if value == "a b" {
      assert value[1..] == " b" && !Clean(" b", ' ');
    } else if value == "@and" {
      OpKind(And);
      assert "@" + OpWord(And) == value;
    } else if value == "@ant" {
      assert value[1..3] == "an" == "and"[..2];
    }
  }

  /** A rejected term goes unreported if the search has a valued modifier. */
  lemma RejectedTermUnreported(units: string -> nat)
    ensures var c := One("x", [Valued(true, true, "v")]);
            var rejects: Accepts := (q: Search, t: string) => None;
            !Emit(c, rejects, units).error &&
            Read(Text(Emit(c, rejects, units).pieces)) != Some(TreeOf(c, rejects, units))
  {
    var rejects: Accepts := (q: Search, t: string) => None;
    OneSearch("x", [Valued(true, true, "v")], rejects, units);
  }

  /** A term that ends in a lone backslash hides its closing quote; one that begins with '@' and a digit
      is taken for an attribute. */
  lemma TermMisread(term: string, units: string -> nat)
    requires term == "a\\" || term == "@1"
    ensures !Emit(One(term, []), ACCEPT_ALL, units).error &&
            Read(Text(Emit(One(term, []), ACCEPT_ALL, units).pieces)) != Some(TreeOf(One(term, []), ACCEPT_ALL, units))
  {
    var m := Mode(term, true, false);
    assert !Readable(Quoted(Body(m))) by {
      TermReadable(m);
      if term == "a\\" {
        assert term[1..] == "\\" && LoneBackslash("\\");
      } else {
        AttributeShown();
      }
    }
    OneSearch(term, [], ACCEPT_ALL, units);
  }

  lemma AttributeShown()
    ensures AttrStart(Body(Mode("@1", true, false)), 0)
  {
    assert Shown("@1", 2, false) == "";
    assert Shown("@1", 1, false) == "1";
    assert Shown("@1", 0, false) == "@1";
  }

  /** A negative distance is printed and not read. */
  lemma NegativeDistance(units: string -> nat)
    ensures var c := Boolean(CqlProx, [Modifier("distance", "<", "-2")], One("x", []), One("y", []));
            !Emit(c, ACCEPT_ALL, units).error &&
            Read(Text(Emit(c, ACCEPT_ALL, units).pieces)) != Some(TreeOf(c, ACCEPT_ALL, units))
  {
    hide Emit, Read, Text, TreeOf;
    var ms := [Modifier("distance", "<", "-2")];
    var c := Boolean(CqlProx, ms, One("x", []), One("y", []));
    MinusTwo(units);
    ErrorsReported(c, ACCEPT_ALL, units);
    ReadBackExactly(c, ACCEPT_ALL, units);
  }

  lemma MinusTwo(units: string -> nat)
    ensures var st := ProxLoop(PROX_START, [Modifier("distance", "<", "-2")], units);
            st.Some? && Distance(st.value) == -2
  {
    assert DigitsFrom("-2", 2, 10, 2) == 2;
    assert DigitsFrom("-2", 1, 10, 0) == 2;
    assert Number("-2", true) == -2;
    var next := ProxStep(PROX_START, Modifier("distance", "<", "-2"), units);
    assert ProxLoop(next.value, [], units) == next;
  }
}
