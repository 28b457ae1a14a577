/** The language of the CCL parser, src/cclfind.c:588-1300 with an empty bibset, as a grammar: which token
    lists are queries, and the tree each of them stands for. */
module CclGrammar {
  import opened Bytes
  import opened Pieces
  import opened CclTokens
  import opened CclFind

  /** Elements joined by operators, from the left. */
  datatype Spec = One(elements: Elements) | Join(left: Spec, op: Token, right: Elements)

  /** A result set, or terms near each other. */
  datatype Elements = InSet(keyword: Token, eq: seq<Token>, name: Token) | Near(terms: Terms)

  /** Operands joined by proximity, from the left; between a parenthesis and words it need not be written. */
  datatype Terms = Single(operand: Operand) | Within(left: Terms, how: seq<Token>, right: Operand)

  datatype Operand = Paren(lp: Token, inner: Spec, rp: Token) | Phrase(words: seq<Token>)

  // ---- tokens

  function SpecTokens(c: Spec): seq<Token> {
    match c
    case One(e) => ElementsTokens(e)
    case Join(l, op, r) => SpecTokens(l) + ([op] + ElementsTokens(r))
  }

  function ElementsTokens(e: Elements): seq<Token> {
    match e
    case InSet(keyword, eq, name) => [keyword] + (eq + [name])
    case Near(t) => TermsTokens(t)
  }

  function TermsTokens(t: Terms): seq<Token> {
    match t
    case Single(x) => OperandTokens(x)
    case Within(l, how, r) => TermsTokens(l) + (how + OperandTokens(r))
  }

  function OperandTokens(x: Operand): seq<Token> {
    match x
    case Paren(lp, c, rp) => [lp] + (SpecTokens(c) + [rp])
    case Phrase(ws) => ws
  }

  // ---- which of them are queries

  function FirstOperand(t: Terms): Operand {
    match t
    case Single(x) => x
    case Within(l, _, _) => FirstOperand(l)
  }

  predicate EndsInParen(t: Terms) {
    match t
    case Single(x) => x.Paren?
    case Within(_, _, r) => r.Paren?
  }

  predicate EndsInSet(c: Spec) {
    match c
    case One(e) => e.InSet?
    case Join(_, _, e) => e.InSet?
  }

  predicate SpecOk(c: Spec) {
    match c
    case One(e) => ElementsOk(e)
    case Join(l, op, r) => SpecOk(l) && OpOf(op.kind) != [] && ElementsOk(r)
  }

  /** Words must not look like a qualifier, which would be unknown. */
  predicate ElementsOk(e: Elements) {
    match e
    case InSet(keyword, eq, name) =>
      && keyword.kind == Set && name.kind == Term
      && (eq == [] || (|eq| == 1 && eq[0].kind == Eq))
    case Near(t) =>
      && TermsOk(t)
      && var x := FirstOperand(t);
         x.Phrase? ==> x.words != [] && x.words[0].kind != Set && !QualifierAhead(x.words, 0)
  }

  predicate TermsOk(t: Terms) {
    match t
    case Single(x) => OperandOk(x)
    case Within(l, how, r) =>
      && TermsOk(l) && OperandOk(r)
      && (if how == [] then EndsInParen(l) && r.Phrase? else |how| == 1 && how[0].kind == Prox)
  }

  predicate OperandOk(x: Operand) {
    match x
    case Paren(lp, c, rp) => lp.kind == Lp && rp.kind == Rp && SpecOk(c)
    case Phrase(ws) => ws != [] && AreWords(ws) && PhraseTree(ws, []).Some?
  }

  /** Relations, commas and the word "set" may be words, too. */
  predicate AreWords(ws: seq<Token>) { forall k :: 0 <= k < |ws| ==> ws[k].kind in {Term, Comma, Eq, Rel, Set} }

  /** Names separated by commas. */
  function Listed(names: seq<Token>, commas: seq<Token>): seq<Token>
    requires |names| == |commas| + 1
  {
    if commas == [] then names else [names[0], commas[0]] + Listed(names[1..], commas[1..])
  }

  /** A list of names and a relation. */
  predicate IsQualifier(names: seq<Token>, commas: seq<Token>, rel: Token) {
    && |names| == |commas| + 1
    && (forall k :: 0 <= k < |names| ==> names[k].kind == Term)
    && (forall k :: 0 <= k < |commas| ==> commas[k].kind == Comma)
    && (rel.kind == Rel || rel.kind == Eq)
  }

  /** The look-ahead finds a qualifier if and only if the tokens begin with one. */
  lemma {:induction false} QualifierExactly(ts: seq<Token>, i: nat)
    requires i <= |ts|
    ensures QualifierAhead(ts, i) <==>
              exists names, commas, rel :: IsQualifier(names, commas, rel) && Listed(names, commas) + [rel] <= ts[i..]
  {
    if QualifierAhead(ts, i) {
      var names, commas, rel := QualifierFound(ts, i);
    }
    if names, commas, rel :| IsQualifier(names, commas, rel) && Listed(names, commas) + [rel] <= ts[i..] {
      QualifierSeen(ts, i, names, commas, rel);
    }
  }

  lemma {:induction false} QualifierFound(ts: seq<Token>, i: nat)
      returns (names: seq<Token>, commas: seq<Token>, rel: Token)
    requires i <= |ts| && QualifierAhead(ts, i)
    ensures IsQualifier(names, commas, rel) && Listed(names, commas) + [rel] <= ts[i..]
    decreases |ts| - i
  {
    if KindAt(ts, i + 1) == Comma {
      var ns, cs, r := QualifierFound(ts, i + 2);
      names, commas, rel := [ts[i]] + ns, [ts[i + 1]] + cs, r;
      assert names[1..] == ns && commas[1..] == cs;
      assert Listed(names, commas) + [rel] == [ts[i], ts[i + 1]] + (Listed(ns, cs) + [rel]);
      assert ts[i..] == [ts[i], ts[i + 1]] + ts[i + 2..];
    } else {
      names, commas, rel := [ts[i]], [], ts[i + 1];
      assert ts[i..] == [ts[i], ts[i + 1]] + ts[i + 2..];
    }
  }

  lemma {:induction false} QualifierSeen(ts: seq<Token>, i: nat, names: seq<Token>, commas: seq<Token>, rel: Token)
    requires i <= |ts| && IsQualifier(names, commas, rel) && Listed(names, commas) + [rel] <= ts[i..]
    ensures QualifierAhead(ts, i)
    decreases |commas|
  {
    var l := Listed(names, commas) + [rel];
    ListedLong(names, commas);
    assert ts[i] == ts[i..][0] == l[0] && ts[i + 1] == ts[i..][1] == l[1];
    if commas != [] {
      var rest := Listed(names[1..], commas[1..]) + [rel];
      assert l == [names[0], commas[0]] + rest;
      assert rest == l[2..] && ts[i + 2..] == ts[i..][2..];
      QualifierSeen(ts, i + 2, names[1..], commas[1..], rel);
    }
  }

  lemma ListedLong(names: seq<Token>, commas: seq<Token>)
    requires |names| == |commas| + 1
    ensures |Listed(names, commas)| >= 1 && Listed(names, commas)[0] == names[0]
  {
  }

  // ---- what they stand for

  /** Words in a row are one term, or terms of MAX_PHRASE words joined by AND; None if a word is
      truncated. */
  function PhraseTree(ws: seq<Token>, top: seq<Rpn>): Option<Rpn>
    requires |top| <= 1
    decreases |ws|
  {
    if ws == [] then (if top == [] then None else Some(top[0]))
    else
      var n := if |ws| < MAX_PHRASE then |ws| else MAX_PHRASE;
      var t := TermText(ws, 0, n, "");
      if !t.0 then None
      else PhraseTree(ws[n..], [if top == [] then TermNode(t.1) else BoolNode(AndOp, top[0], TermNode(t.1))])
  }

  function SpecTree(c: Spec): Rpn
    requires SpecOk(c)
  {
    match c
    case One(e) => ElementsTree(e)
    case Join(l, op, r) => BoolNode(OpOf(op.kind)[0], SpecTree(l), ElementsTree(r))
  }

  function ElementsTree(e: Elements): Rpn
    requires ElementsOk(e)
  {
    match e
    case InSet(_, _, name) => SetNode(name.name)
    case Near(t) => TermsTree(t)
  }

  function TermsTree(t: Terms): Rpn
    requires TermsOk(t)
  {
    match t
    case Single(x) => OperandTree(x)
    case Within(l, how, r) => ProxNode(TermsTree(l), OperandTree(r), if how == [] then "" else how[0].name)
  }

  function OperandTree(x: Operand): Rpn
    requires OperandOk(x)
  {
    match x
    case Paren(_, c, _) => SpecTree(c)
    case Phrase(ws) => PhraseTree(ws, []).value
  }

  // ---- every query is parsed

  lemma {:induction false} TermTextMoved(ts: seq<Token>, i: nat, ws: seq<Token>, k: nat, n: nat, text: string)
    requires OccursAt(ts, i, ws) && k + n <= |ws|
    ensures TermText(ts, i + k, n, text) == TermText(ws, k, n, text)
    decreases n
  {
    hide Append;
    if n > 0 {
      assert ts[i + k] == ws[k];
      var t := Append(ws[k].name, 0, false);
      TermTextMoved(ts, i, ws, k + 1, n - 1, (if text == "" then "" else text + ws[k].ws) + t.1);
    }
  }

  lemma {:induction false} TermTextTail(ws: seq<Token>, n: nat, k: nat, m: nat, text: string)
    requires n + k + m <= |ws|
    ensures TermText(ws, n + k, m, text) == TermText(ws[n..], k, m, text)
    decreases m
  {
    hide Append;
    if m > 0 {
      var t := Append(ws[n + k].name, 0, false);
      TermTextTail(ws, n, k + 1, m - 1, (if text == "" then "" else text + ws[n + k].ws) + t.1);
    }
  }

  lemma RunIs(ts: seq<Token>, i: nat, n: nat)
    requires n <= MAX_PHRASE && i + n <= |ts| && (n == MAX_PHRASE || !IsTermKind(KindAt(ts, i + n)))
    requires forall k :: i <= k < i + n ==> IsTermKind(ts[k].kind)
    ensures Run(ts, i, MAX_PHRASE) == n
  {
    assert forall k :: i <= k < i + n ==> IsTermKind(KindAt(ts, k));
  }

  lemma WordKinds(ts: seq<Token>, i: nat, ws: seq<Token>)
    requires OccursAt(ts, i, ws) && AreWords(ws)
    ensures i + |ws| <= |ts| && forall k :: i <= k < i + |ws| ==> IsTermKind(ts[k].kind)
  {
    forall k | i <= k < i + |ws| ensures IsTermKind(ts[k].kind) { assert ts[i + (k - i)] == ws[k - i]; }
  }

  /** Words in a row, up to something else. */
  lemma {:induction false} PhraseParsed(ts: seq<Token>, i: nat, ws: seq<Token>, top: seq<Rpn>)
    requires |top| <= 1 && OccursAt(ts, i, ws) && AreWords(ws) && !IsTermKind(KindAt(ts, i + |ws|))
    requires ws != [] || top != []
    ensures i + |ws| <= |ts|
    ensures SearchTermX(ts, i, top) ==
              var p := PhraseTree(ws, top); if p.None? then Bad(Truncation) else Ok(p.value, i + |ws|)
    decreases |ws|
  {
    hide TermText, Run, SearchTermX, OccursAt, KindAt;
    WordKinds(ts, i, ws);
    SearchTermXStep(ts, i, top);
    if ws == [] {
      RunIs(ts, i, 0);
    } else {
      var n := if |ws| < MAX_PHRASE then |ws| else MAX_PHRASE;
      RunIs(ts, i, n);
      TermTextMoved(ts, i, ws, 0, n, "");
      var t := TermText(ws, 0, n, "");
      if t.0 {
        assert ws == ws[..n] + ws[n..];
        OccursSplit(ts, i, ws[..n], ws[n..]);
        PhraseParsed(ts, i + n, ws[n..], [if top == [] then TermNode(t.1) else BoolNode(AndOp, top[0], TermNode(t.1))]);
      }
    }
  }

  lemma {:induction false} QualifierMoved(ts: seq<Token>, i: nat, ws: seq<Token>, k: nat)
    requires OccursAt(ts, i, ws) && k <= |ws| && !IsTermKind(KindAt(ts, i + |ws|))
    ensures QualifierAhead(ts, i + k) <==> QualifierAhead(ws, k)
    decreases |ws| - k
  {
    if k < |ws| {
      assert ts[i + k] == ws[k];
      if k + 1 < |ws| {
        assert ts[i + (k + 1)] == ws[k + 1];
        if k + 2 <= |ws| { QualifierMoved(ts, i, ws, k + 2); }
      }
    }
  }

  lemma {:induction false} OperandParsed(ts: seq<Token>, i: nat, x: Operand)
    requires OperandOk(x) && OccursAt(ts, i, OperandTokens(x))
    requires x.Phrase? ==> !IsTermKind(KindAt(ts, i + |OperandTokens(x)|))
    ensures var e := i + |OperandTokens(x)|; i < e <= |ts| && SearchTerms2(ts, i) == Ok(OperandTree(x), e)
    decreases x
  {
    hide OccursAt, SearchTermX, PhraseTree, FindSpec, FindSpecRest, SpecOk, SpecTree, SpecTokens, SearchTerms2, KindAt,
         IsTermKind, AreWords;
    OccursSlice(ts, i, OperandTokens(x));
    match x
    case Phrase(ws) => {
      WordsStart(ts, i, ws);
      PhraseParsed(ts, i, ws, []);
    }
    case Paren(lp, c, rp) => {
      var inner := SpecTokens(c);
      OccursSplit(ts, i, [lp], inner + [rp]);
      OccursOne(ts, i, lp);
      OccursSplit(ts, i + 1, inner, [rp]);
      OccursOne(ts, i + 1 + |inner|, rp);
      Closes(ts, i + 1 + |inner|);
      SpecParsed(ts, i + 1, c);
      RestEnds(ts, i + 1 + |inner|, SpecTree(c));
      ParenIsOperand(ts, i, SpecTree(c), i + 1 + |inner|);
    }
  }

  lemma WordsStart(ts: seq<Token>, i: nat, ws: seq<Token>)
    requires ws != [] && AreWords(ws) && OccursAt(ts, i, ws)
    ensures i < |ts| && SearchTerms2(ts, i) == SearchTermX(ts, i, [])
  {
    hide SearchTermX, FindSpec;
    FirstWord(ts, i, ws);
  }

  lemma Closes(ts: seq<Token>, j: nat)
    requires j < |ts| && ts[j].kind == Rp
    ensures var k := KindAt(ts, j); k == Rp && !IsTermKind(k) && k != Prox && OpOf(k) == []
  {
  }

  lemma ParenIsOperand(ts: seq<Token>, i: nat, p: Rpn, j: nat)
    requires i < |ts| && ts[i].kind == Lp && FindSpec(ts, i + 1) == Ok(p, j) && KindAt(ts, j) == Rp
    ensures SearchTerms2(ts, i) == Ok(p, j + 1)
  {
    hide FindSpec, SearchTermX;
  }

  lemma RestEnds(ts: seq<Token>, i: nat, acc: Rpn)
    requires i <= |ts| && OpOf(KindAt(ts, i)) == []
    ensures FindSpecRest(ts, i, acc) == Ok(acc, i)
  {
  }

  lemma RestStep(ts: seq<Token>, i: nat, op: Op, acc: Rpn, p: Rpn, j: nat)
    requires i < |ts| && OpOf(ts[i].kind) == [op] && SearchElements(ts, i + 1) == Ok(p, j)
    ensures FindSpecRest(ts, i, acc) == FindSpecRest(ts, j, BoolNode(op, acc, p))
  {
    hide SearchElements;
  }

  lemma TermsRestEnds(ts: seq<Token>, i: nat, p: Rpn)
    requires i <= |ts| && KindAt(ts, i) != Prox && !IsTermKind(KindAt(ts, i))
    ensures SearchTermsRest(ts, i, p) == Ok(p, i)
  {
    hide SearchTerms2;
  }

  lemma TermsRestStep(ts: seq<Token>, i: nat, how: seq<Token>, acc: Rpn, p: Rpn, j: nat)
    requires i < |ts| && (if how == [] then IsTermKind(ts[i].kind) else how == [ts[i]] && ts[i].kind == Prox)
    requires SearchTerms2(ts, i + |how|) == Ok(p, j)
    ensures SearchTermsRest(ts, i, acc) ==
              SearchTermsRest(ts, j, ProxNode(acc, p, if how == [] then "" else how[0].name))
  {
    hide SearchTerms2;
  }

  lemma {:induction false} TermsParsed(ts: seq<Token>, i: nat, t: Terms)
    requires TermsOk(t) && OccursAt(ts, i, TermsTokens(t))
    requires EndsInParen(t) || !IsTermKind(KindAt(ts, i + |TermsTokens(t)|))
    ensures var e := i + |TermsTokens(t)|;
            i < e <= |ts| && SearchTerms(ts, i) == SearchTermsRest(ts, e, TermsTree(t))
    decreases t
  {
    hide OccursAt, SearchTerms2, SearchTermsRest, OperandOk, OperandTree, OperandTokens, IsTermKind, KindAt;
    match t
    case Single(x) => OperandParsed(ts, i, x);
    case Within(l, how, r) => {
      var a, b := TermsTokens(l), OperandTokens(r);
      OccursSplit(ts, i, a, how + b);
      var j := i + |a|;
      OccursSplit(ts, j, how, b);
      HowFollows(ts, j, how, r);
      TermsParsed(ts, i, l);
      OperandParsed(ts, j + |how|, r);
      ProxIsNoTerm();
      TermsRestStep(ts, j, how, TermsTree(l), OperandTree(r), j + |how| + |b|);
    }
  }

  /** What stands between two operands, in the token list. */
  lemma HowFollows(ts: seq<Token>, j: nat, how: seq<Token>, r: Operand)
    requires OperandOk(r) && (if how == [] then r.Phrase? else |how| == 1 && how[0].kind == Prox)
    requires OccursAt(ts, j, how) && OccursAt(ts, j + |how|, OperandTokens(r))
    ensures j < |ts|
    ensures if how == [] then IsTermKind(ts[j].kind) else how == [ts[j]] && !IsTermKind(KindAt(ts, j))
  {
    if how == [] {
      assert ts[j + 0 + 0] == r.words[0];
    } else {
      assert ts[j + 0] == how[0];
    }
  }

  lemma {:induction false} ElementsParsed(ts: seq<Token>, i: nat, e: Elements)
    requires ElementsOk(e) && OccursAt(ts, i, ElementsTokens(e))
    requires var k := KindAt(ts, i + |ElementsTokens(e)|); !IsTermKind(k) && k != Prox
    ensures var end := i + |ElementsTokens(e)|;
            i < end <= |ts| && SearchElements(ts, i) == Ok(ElementsTree(e), end)
    decreases e
  {
    hide OccursAt, SearchElements, SearchTerms, SearchTermsRest, TermsOk, TermsTree, TermsTokens, QualifierAhead,
         KindAt, IsTermKind, FirstOperand;
    match e
    case InSet(keyword, eq, name) => SetParsed(ts, i, keyword, eq, name);
    case Near(t) => {
      TermsParsed(ts, i, t);
      TermsRestEnds(ts, i + |TermsTokens(t)|, TermsTree(t));
      NotQualified(ts, i, t);
      TermsAreElements(ts, i);
    }
  }

  lemma TermsAreElements(ts: seq<Token>, i: nat)
    requires i <= |ts| && KindAt(ts, i) != Set && !QualifierAhead(ts, i)
    ensures SearchElements(ts, i) == SearchTerms(ts, i)
  {
    hide SearchTerms, QualifierAhead;
  }

  lemma SetParsed(ts: seq<Token>, i: nat, keyword: Token, eq: seq<Token>, name: Token)
    requires ElementsOk(InSet(keyword, eq, name)) && OccursAt(ts, i, [keyword] + (eq + [name]))
    ensures i + 2 + |eq| <= |ts| && SearchElements(ts, i) == Ok(SetNode(name.name), i + 2 + |eq|)
  {
    hide OccursAt, SearchTerms;
    OccursSplit(ts, i, [keyword], eq + [name]);
    OccursOne(ts, i, keyword);
    OccursSplit(ts, i + 1, eq, [name]);
    OccursOne(ts, i + 1 + |eq|, name);
    if eq != [] {
      assert eq == [eq[0]];
      OccursOne(ts, i + 1, eq[0]);
    }
  }

  /** The first words of the terms are no qualifier, and no set. */
  lemma {:induction false} NotQualified(ts: seq<Token>, i: nat, t: Terms)
    requires TermsOk(t) && OccursAt(ts, i, TermsTokens(t)) && ElementsOk(Near(t))
    requires EndsInParen(t) || !IsTermKind(KindAt(ts, i + |TermsTokens(t)|))
    ensures KindAt(ts, i) != Set && !QualifierAhead(ts, i)
    decreases t
  {
    hide OccursAt, OperandTokens, OperandOk, QualifierAhead, IsTermKind;
    match t
    case Single(x) => OperandNotQualified(ts, i, x);
    case Within(l, how, r) => {
      OccursSplit(ts, i, TermsTokens(l), how + OperandTokens(r));
      OccursSplit(ts, i + |TermsTokens(l)|, how, OperandTokens(r));
      HowFollows(ts, i + |TermsTokens(l)|, how, r);
      NotQualified(ts, i, l);
    }
  }

  lemma OperandNotQualified(ts: seq<Token>, i: nat, x: Operand)
    requires OperandOk(x) && OccursAt(ts, i, OperandTokens(x))
    requires x.Paren? || (x.words[0].kind != Set && !QualifierAhead(x.words, 0) &&
                          !IsTermKind(KindAt(ts, i + |OperandTokens(x)|)))
    ensures KindAt(ts, i) != Set && !QualifierAhead(ts, i)
  {
    hide OccursAt, SpecOk, PhraseTree;
    match x
    case Paren(lp, c, rp) => {
      OccursSplit(ts, i, [lp], SpecTokens(c) + [rp]);
      OccursOne(ts, i, lp);
    }
    case Phrase(ws) => {
      FirstWord(ts, i, ws);
      QualifierMoved(ts, i, ws, 0);
    }
  }

  lemma FirstWord(ts: seq<Token>, i: nat, ws: seq<Token>)
    requires ws != [] && OccursAt(ts, i, ws)
    ensures i < |ts| && ts[i] == ws[0]
  {
    assert ts[i + 0] == ws[0];
  }

  lemma {:induction false} SpecParsed(ts: seq<Token>, i: nat, c: Spec)
    requires SpecOk(c) && OccursAt(ts, i, SpecTokens(c))
    requires var k := KindAt(ts, i + |SpecTokens(c)|); !IsTermKind(k) && k != Prox
    ensures var e := i + |SpecTokens(c)|;
            i < e <= |ts| && FindSpec(ts, i) == FindSpecRest(ts, e, SpecTree(c))
    decreases c
  {
    hide OccursAt, SearchElements, FindSpecRest, ElementsOk, ElementsTree, ElementsTokens;
    match c
    case One(e) => ElementsParsed(ts, i, e);
    case Join(l, op, r) => {
      var a, b := SpecTokens(l), ElementsTokens(r);
      OccursSplit(ts, i, a, [op] + b);
      var j := i + |a|;
      OccursSplit(ts, j, [op], b);
      OccursOne(ts, j, op);
      SpecParsed(ts, i, l);
      ElementsParsed(ts, j + 1, r);
      RestStep(ts, j, OpOf(op.kind)[0], SpecTree(l), ElementsTree(r), j + 1 + |b|);
    }
  }

  /** Every token list that the grammar derives is parsed to its tree. */
  lemma QueryParsed(c: Spec, eol: Token)
    requires SpecOk(c) && eol.kind == Eol
    ensures FindToken(SpecTokens(c) + [eol]) == Ok(SpecTree(c), |SpecTokens(c)|)
  {
    hide OccursAt, FindSpec, FindSpecRest, SpecTokens, SpecTree, SpecOk;
    var ts, n := SpecTokens(c) + [eol], |SpecTokens(c)|;
    InFront(SpecTokens(c), eol);
    assert ts[n] == eol;
    SpecParsed(ts, 0, c);
    RestEnds(ts, n, SpecTree(c));
  }

  lemma InFront(a: seq<Token>, t: Token)
    ensures OccursAt(a + [t], 0, a)
  {
  }

  // ---- whatever is parsed is a query

  lemma {:induction false} PhraseFound(ts: seq<Token>, i: nat, top: seq<Rpn>)
    requires i <= |ts| && |top| <= 1 && SearchTermX(ts, i, top).Ok?
    ensures var r := SearchTermX(ts, i, top);
            && AreWords(ts[i..r.next]) && PhraseTree(ts[i..r.next], top) == Some(r.node)
            && !IsTermKind(KindAt(ts, r.next))
    decreases |ts| - i
  {
    hide TermText, Run, SearchTermX;
    SearchTermXStep(ts, i, top);
    var n := Run(ts, i, MAX_PHRASE);
    if n > 0 {
      var t := TermText(ts, i, n, "");
      var node := if top == [] then TermNode(t.1) else BoolNode(AndOp, top[0], TermNode(t.1));
      PhraseFound(ts, i + n, [node]);
      var e := SearchTermX(ts, i + n, [node]).next;
      RunFound(ts, i, e);
      SliceAt(ts, i, e);
      TermTextMoved(ts, i, ts[i..e], 0, n, "");
      assert ts[i..e][n..] == ts[i + n..e];
    }
  }

  /** A run that is cut at MAX_PHRASE words, or goes up to the end of the words. */
  lemma RunFound(ts: seq<Token>, i: nat, e: nat)
    requires i + Run(ts, i, MAX_PHRASE) <= e <= |ts|
    requires AreWords(ts[i + Run(ts, i, MAX_PHRASE)..e])
    ensures AreWords(ts[i..e])
    ensures Run(ts, i, MAX_PHRASE) == if e - i < MAX_PHRASE then e - i else MAX_PHRASE
  {
    hide Run;
    var n := Run(ts, i, MAX_PHRASE);
    forall k | i <= k < e ensures IsTermKind(KindAt(ts, k)) {
      if k >= i + n { assert ts[k] == ts[i + n..e][k - (i + n)]; }
    }
    forall k | 0 <= k < e - i ensures IsTermKind(ts[i..e][k].kind) {
      assert IsTermKind(KindAt(ts, i + k));
    }
  }

  lemma SliceAt(ts: seq<Token>, i: nat, e: nat)
    requires i <= e <= |ts|
    ensures OccursAt(ts, i, ts[i..e])
  {
  }

  lemma InBrackets(ts: seq<Token>, i: nat, e: nat)
    requires i < e < |ts|
    ensures ts[i..e + 1] == [ts[i]] + (ts[i + 1..e] + [ts[e]])
  {
  }

  lemma {:induction false} OperandFound(ts: seq<Token>, i: nat) returns (x: Operand)
    requires i <= |ts| && SearchTerms2(ts, i).Ok?
    ensures var r := SearchTerms2(ts, i);
            && OperandOk(x) && OperandTokens(x) == ts[i..r.next] && OperandTree(x) == r.node
            && (x.Paren? <==> KindAt(ts, i) == Lp) && (x.Phrase? ==> !IsTermKind(KindAt(ts, r.next)))
    decreases |ts| - i, 1
  {
    hide SearchTermX, FindSpec, PhraseTree, SpecOk, SpecTree, SpecTokens, IsTermKind;
    var e := SearchTerms2(ts, i).next;
    if KindAt(ts, i) == Lp {
      var c := SpecFound(ts, i + 1);
      x := Paren(ts[i], c, ts[e - 1]);
      InBrackets(ts, i, e - 1);
    } else {
      PhraseFound(ts, i, []);
      x := Phrase(ts[i..e]);
    }
  }

  /** One more operand. */
  lemma NextOperand(ts: seq<Token>, i: nat, j: nat, t: Terms, how: seq<Token>, x: Operand, e: nat)
    requires i < j < |ts| && TermsOk(t) && TermsTokens(t) == ts[i..j]
    requires if how == [] then EndsInParen(t) && x.Phrase? else how == [ts[j]] && ts[j].kind == Prox
    requires OperandOk(x) && j + |how| < e <= |ts| && OperandTokens(x) == ts[j + |how|..e]
    ensures var u := Within(t, how, x);
            TermsOk(u) && TermsTokens(u) == ts[i..e] && FirstOperand(u) == FirstOperand(t)
  {
    hide OperandOk, OperandTokens;
    HowSlices(ts, i, j, how, e);
  }

  lemma HowSlices(ts: seq<Token>, i: nat, j: nat, how: seq<Token>, e: nat)
    requires i <= j < |ts| && (how == [] || how == [ts[j]]) && j + |how| <= e <= |ts|
    ensures ts[i..e] == ts[i..j] + (how + ts[j + |how|..e])
  {
  }

  /** The proximity loop, once it has found `t`. */
  lemma {:induction false} TermsRestFound(ts: seq<Token>, i: nat, j: nat, t: Terms) returns (u: Terms)
    requires i < j <= |ts| && TermsOk(t) && TermsTokens(t) == ts[i..j]
    requires EndsInParen(t) || !IsTermKind(KindAt(ts, j))
    requires SearchTermsRest(ts, j, TermsTree(t)).Ok?
    ensures var r := SearchTermsRest(ts, j, TermsTree(t));
            && TermsOk(u) && TermsTokens(u) == ts[i..r.next] && TermsTree(u) == r.node
            && FirstOperand(u) == FirstOperand(t) && (EndsInParen(u) || !IsTermKind(KindAt(ts, r.next)))
    decreases |ts| - j, 2
  {
    hide SearchTerms2, OperandOk, OperandTokens, OperandTree, IsTermKind;
    var k := KindAt(ts, j);
    var how := if k == Prox then [ts[j]] else [];
    if k == Prox || IsTermKind(k) {
      var x := OperandFound(ts, j + |how|);
      var e := SearchTerms2(ts, j + |how|).next;
      var next := Within(t, how, x);
      ProxIsNoTerm();
      NextOperand(ts, i, j, t, how, x, e);
      u := TermsRestFound(ts, i, e, next);
    } else {
      u := t;
    }
  }

  lemma ProxIsNoTerm()
    ensures !IsTermKind(Lp) && !IsTermKind(Prox)
  {
  }

  /** Words at `i`, and something else behind them. */
  predicate WordsEnd(ts: seq<Token>, i: nat, ws: seq<Token>) {
    ws != [] && OccursAt(ts, i, ws) && !IsTermKind(KindAt(ts, i + |ws|))
  }

  lemma WordsFound(ts: seq<Token>, i: nat, x: Operand, e: nat)
    requires x.Phrase? && OperandOk(x) && i <= e <= |ts| && OperandTokens(x) == ts[i..e] && !IsTermKind(KindAt(ts, e))
    ensures WordsEnd(ts, i, x.words)
  {
    SliceAt(ts, i, e);
  }

  lemma {:induction false} TermsFound(ts: seq<Token>, i: nat) returns (t: Terms)
    requires i <= |ts| && SearchTerms(ts, i).Ok?
    ensures var r := SearchTerms(ts, i);
            && TermsOk(t) && TermsTokens(t) == ts[i..r.next] && TermsTree(t) == r.node
            && (EndsInParen(t) || !IsTermKind(KindAt(ts, r.next)))
            && (FirstOperand(t).Phrase? ==> WordsEnd(ts, i, FirstOperand(t).words))
    decreases |ts| - i, 3
  {
    hide SearchTerms2, SearchTermsRest, OperandOk, OperandTokens, OperandTree, IsTermKind, WordsEnd;
    var x := OperandFound(ts, i);
    if x.Phrase? { WordsFound(ts, i, x, SearchTerms2(ts, i).next); }
    t := TermsRestFound(ts, i, SearchTerms2(ts, i).next, Single(x));
  }

  /** Terms end in front of what is no proximity and no word. */
  predicate EndsTerms(k: Kind) { k != Prox && !IsTermKind(k) }

  lemma {:induction false} TermsStop(ts: seq<Token>, i: nat, p: Rpn)
    requires i <= |ts| && SearchTermsRest(ts, i, p).Ok?
    ensures EndsTerms(KindAt(ts, SearchTermsRest(ts, i, p).next))
    decreases |ts| - i
  {
    hide SearchTerms2;
    if KindAt(ts, i) == Prox {
      var r := SearchTerms2(ts, i + 1);
      TermsStop(ts, r.next, ProxNode(p, r.node, ts[i].name));
    } else if IsTermKind(KindAt(ts, i)) {
      var r := SearchTerms2(ts, i);
      TermsStop(ts, r.next, ProxNode(p, r.node, ""));
    }
  }

  lemma ElementsStop(ts: seq<Token>, i: nat)
    requires i <= |ts| && KindAt(ts, i) != Set && SearchElements(ts, i).Ok?
    ensures EndsTerms(KindAt(ts, SearchElements(ts, i).next))
  {
    hide SearchTerms2, SearchTermsRest, QualifierAhead, EndsTerms, KindAt;
    TermsStop(ts, SearchTerms2(ts, i).next, SearchTerms2(ts, i).node);
  }

  lemma {:induction false} ElementsFound(ts: seq<Token>, i: nat) returns (e: Elements)
    requires i <= |ts| && SearchElements(ts, i).Ok?
    ensures var r := SearchElements(ts, i);
            && ElementsOk(e) && ElementsTokens(e) == ts[i..r.next] && ElementsTree(e) == r.node
            && (e.InSet? || EndsTerms(KindAt(ts, r.next)))
    decreases |ts| - i, 4
  {
    hide SearchTerms, TermsOk, TermsTree, TermsTokens, QualifierAhead, OccursAt;
    if KindAt(ts, i) == Set {
      var j := if KindAt(ts, i + 1) == Eq then i + 2 else i + 1;
      e := InSet(ts[i], ts[i + 1..j], ts[j]);
      assert ts[i..j + 1] == [ts[i]] + (ts[i + 1..j] + [ts[j]]);
    } else {
      ElementsStop(ts, i);
      var t := TermsFound(ts, i);
      e := Near(t);
      if FirstOperand(t).Phrase? {
        var ws := FirstOperand(t).words;
        FirstWord(ts, i, ws);
        QualifierMoved(ts, i, ws, 0);
      }
    }
  }

  /** The operator loop, once it has found `c`. */
  lemma {:induction false} SpecRestFound(ts: seq<Token>, i: nat, j: nat, c: Spec) returns (d: Spec)
    requires i < j <= |ts| && SpecOk(c) && SpecTokens(c) == ts[i..j] && FindSpecRest(ts, j, SpecTree(c)).Ok?
    requires EndsInSet(c) || EndsTerms(KindAt(ts, j))
    ensures var r := FindSpecRest(ts, j, SpecTree(c));
            && SpecOk(d) && SpecTokens(d) == ts[i..r.next] && SpecTree(d) == r.node
            && OpOf(KindAt(ts, r.next)) == [] && (EndsInSet(d) || EndsTerms(KindAt(ts, r.next)))
    decreases |ts| - j, 5
  {
    hide SearchElements, ElementsOk, ElementsTree, ElementsTokens, EndsTerms;
    var op := OpOf(KindAt(ts, j));
    if op == [] {
      d := c;
    } else {
      var e := ElementsFound(ts, j + 1);
      var k := SearchElements(ts, j + 1).next;
      assert ts[i..k] == ts[i..j] + ([ts[j]] + ts[j + 1..k]);
      d := SpecRestFound(ts, i, k, Join(c, ts[j], e));
    }
  }

  lemma {:induction false} SpecFound(ts: seq<Token>, i: nat) returns (c: Spec)
    requires i <= |ts| && FindSpec(ts, i).Ok?
    ensures var r := FindSpec(ts, i);
            && SpecOk(c) && SpecTokens(c) == ts[i..r.next] && SpecTree(c) == r.node
            && OpOf(KindAt(ts, r.next)) == [] && (EndsInSet(c) || EndsTerms(KindAt(ts, r.next)))
    decreases |ts| - i, 6
  {
    hide SearchElements, FindSpecRest, ElementsOk, ElementsTree, ElementsTokens, EndsTerms;
    var e := ElementsFound(ts, i);
    c := SpecRestFound(ts, i, SearchElements(ts, i).next, One(e));
  }

  predicate NoEol(ts: seq<Token>) { forall k :: 0 <= k < |ts| ==> ts[k].kind != Eol }

  lemma {:induction false} SpecHasNoEol(c: Spec)
    requires SpecOk(c)
    ensures NoEol(SpecTokens(c))
    decreases c
  {
    hide ElementsOk, ElementsTokens;
    match c
    case One(e) => ElementsHaveNoEol(e);
    case Join(l, op, r) => {
      SpecHasNoEol(l);
      ElementsHaveNoEol(r);
    }
  }

  lemma {:induction false} ElementsHaveNoEol(e: Elements)
    requires ElementsOk(e)
    ensures NoEol(ElementsTokens(e))
    decreases e
  {
    hide TermsOk, TermsTokens;
    match e
    case InSet(_, _, _) => {}
    case Near(t) => TermsHaveNoEol(t);
  }

  lemma {:induction false} TermsHaveNoEol(t: Terms)
    requires TermsOk(t)
    ensures NoEol(TermsTokens(t))
    decreases t
  {
    hide OperandOk, OperandTokens;
    match t
    case Single(x) => OperandHasNoEol(x);
    case Within(l, how, r) => {
      TermsHaveNoEol(l);
      OperandHasNoEol(r);
    }
  }

  lemma {:induction false} OperandHasNoEol(x: Operand)
    requires OperandOk(x)
    ensures NoEol(OperandTokens(x))
    decreases x
  {
    hide SpecOk, SpecTokens, PhraseTree;
    match x
    case Paren(_, c, _) => SpecHasNoEol(c);
    case Phrase(_) => {}
  }

  /** The parser is exact: it returns a tree if and only if the tokens are a query that stands for it. */
  lemma ParsesExactly(ts: seq<Token>, p: Rpn)
    requires |ts| > 0 && ts[|ts| - 1].kind == Eol && forall k :: 0 <= k < |ts| - 1 ==> ts[k].kind != Eol
    ensures FindToken(ts) == Ok(p, |ts| - 1) <==>
              exists c :: SpecOk(c) && SpecTokens(c) == ts[..|ts| - 1] && SpecTree(c) == p
    ensures FindToken(ts).Ok? ==> FindToken(ts).next == |ts| - 1
  {
    hide FindSpec, SpecOk, SpecTokens, SpecTree;
    var n := |ts| - 1;
    if FindToken(ts).Ok? {
      var c := SpecFound(ts, 0);
      var e := FindSpec(ts, 0).next;
      SpecHasNoEol(c);
      forall k | 0 <= k < e ensures ts[k].kind != Eol { assert SpecTokens(c)[k] == ts[k]; }
      assert ts[0..n] == ts[..n];
    }
    if c :| SpecOk(c) && SpecTokens(c) == ts[..n] && SpecTree(c) == p {
      assert ts == ts[..n] + [ts[n]];
      QueryParsed(c, ts[n]);
    }
  }
}
