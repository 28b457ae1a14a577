/** The CCL parser on the tokens of a printed CQL tree. */
module CqlCclParse {
  import opened Bytes
  import opened Chars
  import opened Pieces
  import opened CqlTree
  import opened CqlToCcl
  import opened CclTokens
  import opened CclFind
  import CclGrammar
  import opened CqlCclTerms
  import opened CqlCclRoundTrip

  predicate Closing(k: Kind) {
    k == Rp || k == Eol
  }

  // ---- clauses

  /** Terms in a row with no qualifier, relation or proximity behind them. */
  lemma ElementsAre(ts: seq<Token>, i: nat, n: nat, p: Rpn)
    requires 1 <= n && i + n <= |ts|
    requires forall k :: i <= k < i + n ==> ts[k].kind == Term
    requires !IsTermKind(KindAt(ts, i + n)) && KindAt(ts, i + n) != Prox
    requires SearchTermX(ts, i, []) == Ok(p, i + n)
    ensures SearchElements(ts, i) == Ok(p, i + n)
  {
    hide SearchTermX, FindSpec, FindSpecRest;
    assert SearchTerms2(ts, i) == Ok(p, i + n);
    assert SearchTermsRest(ts, i + n, p) == Ok(p, i + n);
    assert SearchTerms(ts, i) == Ok(p, i + n);
    assert !QualifierAhead(ts, i) by { assert KindAt(ts, i + 1) == Term || KindAt(ts, i + 1) == KindAt(ts, i + n); }
  }

  predicate IsWord(t: Token, w: string)
    requires WellEscaped(w)
  {
    t.kind == Term && t.name == Quoted(w)
  }

  /** The tokens of words in a row, with a blank between them. */
  predicate WordsAt(ts: seq<Token>, i: nat, ws: seq<string>)
    requires GoodWords(ws)
  {
    && i + |ws| <= |ts|
    && (forall k :: i <= k < i + |ws| ==> IsWord(ts[k], ws[k - i]))
    && (forall k :: i < k < i + |ws| ==> ts[k].ws == " ")
  }

  lemma WordsAtKinds(ts: seq<Token>, i: nat, ws: seq<string>)
    requires GoodWords(ws) && WordsAt(ts, i, ws)
    ensures forall k :: i <= k < i + |ws| ==> ts[k].kind == Term
  {
    hide Quoted, WellEscaped;
  }

  lemma WordsAtPart(ts: seq<Token>, i: nat, ws: seq<string>, n: nat)
    requires GoodWords(ws) && WordsAt(ts, i, ws) && n <= |ws|
    ensures WordsAt(ts, i, ws[..n]) && WordsAt(ts, i + n, ws[n..])
    ensures 0 < n < |ws| ==> ts[i + n].ws == " "
  {
    hide Quoted, WellEscaped;
    forall k | i + n <= k < i + |ws| ensures IsWord(ts[k], ws[n..][k - (i + n)]) {
      assert ws[n..][k - (i + n)] == ws[k - i];
    }
  }

  lemma {:induction false} PhraseTokens(ts: seq<Token>, i: nat, ws: seq<string>, blank: string)
    requires GoodWords(ws) && ws != [] && OccursAt(ts, i, LeafTokens(ws, Whole, blank))
    ensures |LeafTokens(ws, Whole, blank)| == |ws| && WordsAt(ts, i, ws) && ts[i].ws == blank
    decreases |ws|
  {
    hide Quoted, WellEscaped, OccursAt;
    var t := Token(Term, blank, Quoted(ws[0]));
    if |ws| == 1 {
      assert LeafTokens(ws, Whole, blank) == [t];
      OccursSlice(ts, i, [t]);
      assert ts[i] == ts[i..i + 1][0];
    } else {
      var rest := LeafTokens(ws[1..], Whole, " ");
      assert LeafTokens(ws, Whole, blank) == [t] + rest;
      OccursSplit(ts, i, [t], rest);
      assert ts[i] == ts[i..i + 1][0];
      PhraseTokens(ts, i + 1, ws[1..], " ");
      forall k | i <= k < i + |ws| ensures IsWord(ts[k], ws[k - i]) {
        if k > i { assert ws[1..][k - (i + 1)] == ws[k - i]; }
      }
    }
  }

  lemma {:induction false} PhraseText(ts: seq<Token>, i: nat, ws: seq<string>, text: string)
    requires GoodWords(ws) && WordsAt(ts, i, ws) && (ws != [] && text != "" ==> ts[i].ws == " ")
    ensures TermText(ts, i, |ws|, text) == (true, Phrase(ws, text, true))
    decreases |ws|
  {
    hide Quoted, WellEscaped, Append, WordsAt;
    if ws != [] {
      AppendQuoted(ws[0]);
      FirstAt(ts, i, ws);
      WordsAtPart(ts, i, ws, 1);
      var text' := (if text == "" then "" else text + ts[i].ws) + WordText(ws[0], true);
      PhraseText(ts, i + 1, ws[1..], text');
    }
  }

  lemma FirstAt(ts: seq<Token>, i: nat, ws: seq<string>)
    requires GoodWords(ws) && WordsAt(ts, i, ws) && ws != []
    ensures i + |ws| <= |ts| && IsWord(ts[i], ws[0])
  {
    assert IsWord(ts[i], ws[i - i]);
  }

  /** A phrase, cut into terms of at most MAX_PHRASE words. */
  lemma {:induction false} PhrasesParsed(ts: seq<Token>, i: nat, ws: seq<string>, top: seq<Rpn>)
    requires GoodWords(ws) && ws != [] && |top| <= 1 && WordsAt(ts, i, ws) && !IsTermKind(KindAt(ts, i + |ws|))
    ensures i + |ws| <= |ts| && SearchTermX(ts, i, top) == Ok(Phrases(ws, top), i + |ws|)
    decreases |ws|
  {
    hide GoodWords, TermText, Run, WordsAt, Phrase, SearchTermX;
    var n := if |ws| <= MAX_PHRASE then |ws| else MAX_PHRASE;
    PhraseStep(ts, i, ws, n, top);
    var term := TermNode(Phrase(ws[..n], "", true));
    var node := if top == [] then term else BoolNode(AndOp, top[0], term);
    if n == |ws| {
      TermsEnd(ts, i + n, node);
    } else {
      PhrasesParsed(ts, i + n, ws[n..], [node]);
    }
  }

  /** One turn of the loop of search_term_x. */
  lemma PhraseStep(ts: seq<Token>, i: nat, ws: seq<string>, n: nat, top: seq<Rpn>)
    requires GoodWords(ws) && |top| <= 1 && WordsAt(ts, i, ws) && !IsTermKind(KindAt(ts, i + |ws|))
    requires 0 < n <= |ws| && n == (if |ws| <= MAX_PHRASE then |ws| else MAX_PHRASE)
    ensures i + |ws| <= |ts| && GoodWords(ws[..n]) && GoodWords(ws[n..]) && WordsAt(ts, i + n, ws[n..])
    ensures var term := TermNode(Phrase(ws[..n], "", true));
            SearchTermX(ts, i, top) ==
              SearchTermX(ts, i + n, [if top == [] then term else BoolNode(AndOp, top[0], term)])
  {
    hide Quoted, WellEscaped, TermText, Run, WordsAt, Phrase;
    FirstAt(ts, i, ws);
    WordsAtKinds(ts, i, ws);
    WordsAtPart(ts, i, ws, n);
    CclGrammar.RunIs(ts, i, n);
    PhraseText(ts, i, ws[..n], "");
    assert |ws[..n]| == n;
  }

  lemma TermsEnd(ts: seq<Token>, i: nat, top: Rpn)
    requires i <= |ts| && !IsTermKind(KindAt(ts, i))
    ensures SearchTermX(ts, i, [top]) == Ok(top, i)
  {
    hide TermText, Run;
    CclGrammar.RunIs(ts, i, 0);
  }

  /** Words joined by an operator: the loop of find_spec builds the chain. */
  lemma {:induction false} ChainTokens(ts: seq<Token>, i: nat, ws: seq<string>, r: Relation, acc: Rpn)
    requires Splits(r) && GoodWords(ws) && ws != []
    requires OccursAt(ts, i, SeparatorTokens(r) + LeafTokens(ws, r, " "))
    requires Closing(KindAt(ts, i + 1 + |LeafTokens(ws, r, " ")|))
    ensures i + 1 + |LeafTokens(ws, r, " ")| <= |ts|
    ensures FindSpecRest(ts, i, acc)
         == Ok(Chain(if r == AllWords then AndOp else OrOp, acc, ws, true), i + 1 + |LeafTokens(ws, r, " ")|)
    decreases |ws|
  {
    hide Quoted, WellEscaped, SearchElements, OccursAt, FindSpecRest;
    var op := if r == AllWords then AndOp else OrOp;
    var acc' := BoolNode(op, acc, TermNode(WordText(ws[0], true)));
    OccursSplit(ts, i, SeparatorTokens(r), LeafTokens(ws, r, " "));
    assert ts[i] == ts[i..i + 1][0];
    WordElement(ts, i + 1, ws, r, " ");
    CclGrammar.RestStep(ts, i, op, acc, TermNode(WordText(ws[0], true)), i + 2);
    if |ws| > 1 {
      var rest := SeparatorTokens(r) + LeafTokens(ws[1..], r, " ");
      OccursSplit(ts, i + 1, [Token(Term, " ", Quoted(ws[0]))], rest);
      ChainTokens(ts, i + 2, ws[1..], r, acc');
    } else {
      assert ws[1..] == [];
      CclGrammar.RestEnds(ts, i + 2, acc');
    }
  }

  /** The first word of a clause whose words are joined by an operator. */
  lemma WordElement(ts: seq<Token>, i: nat, ws: seq<string>, r: Relation, blank: string)
    requires Splits(r) && GoodWords(ws) && ws != []
    requires OccursAt(ts, i, LeafTokens(ws, r, blank)) && Closing(KindAt(ts, i + |LeafTokens(ws, r, blank)|))
    ensures i < |ts| && SearchElements(ts, i) == Ok(TermNode(WordText(ws[0], true)), i + 1)
  {
    hide Quoted, WellEscaped, SearchElements, Append, OccursAt, LeafTokens, SearchTermX;
    WordTokens(ts, i, ws, r, blank);
    OneWord(ts, i, ws[0]);
    ElementsAre(ts, i, 1, TermNode(WordText(ws[0], true)));
  }

  /** A word is followed by the separator or by the end. */
  lemma WordTokens(ts: seq<Token>, i: nat, ws: seq<string>, r: Relation, blank: string)
    requires Splits(r) && GoodWords(ws) && ws != []
    requires OccursAt(ts, i, LeafTokens(ws, r, blank)) && Closing(KindAt(ts, i + |LeafTokens(ws, r, blank)|))
    ensures i < |ts| && ts[i] == Token(Term, blank, Quoted(ws[0]))
    ensures !IsTermKind(KindAt(ts, i + 1)) && KindAt(ts, i + 1) != Prox
  {
    hide Quoted, WellEscaped, OccursAt;
    var t := Token(Term, blank, Quoted(ws[0]));
    var rest := if |ws| == 1 then [] else SeparatorTokens(r) + LeafTokens(ws[1..], r, " ");
    OccursSplit(ts, i, [t], rest);
    OccursOne(ts, i, t);
    if |ws| > 1 {
      OccursSplit(ts, i + 1, SeparatorTokens(r), LeafTokens(ws[1..], r, " "));
      OccursOne(ts, i + 1, SeparatorTokens(r)[0]);
    }
  }

  lemma OneWord(ts: seq<Token>, i: nat, w: string)
    requires WellEscaped(w) && i < |ts| && ts[i].kind == Term && ts[i].name == Quoted(w)
    requires !IsTermKind(KindAt(ts, i + 1))
    ensures SearchTermX(ts, i, []) == Ok(TermNode(WordText(w, true)), i + 1)
  {
    hide Quoted, WellEscaped, SearchTermX, WordText;
    PhrasesParsed(ts, i, [w], []);
    assert [w][..1] == [w] && [w][1..] == [];
    assert "" + WordText(w, true) == WordText(w, true);
    assert Phrase([], WordText(w, true), true) == WordText(w, true);
    assert Phrase([w], "", true) == WordText(w, true);
  }

  lemma ClauseParsed(ts: seq<Token>, i: nat, ws: seq<string>, r: Relation)
    requires r != Unsupported && GoodWords(ws) && ws != []
    requires OccursAt(ts, i, LeafTokens(ws, r, "")) && Closing(KindAt(ts, i + |LeafTokens(ws, r, "")|))
    ensures i + |LeafTokens(ws, r, "")| <= |ts|
    ensures FindSpec(ts, i) == Ok(ClauseMeaning(r, ws, true), i + |LeafTokens(ws, r, "")|)
  {
    hide Quoted, WellEscaped, SearchElements, SearchTermX, FindSpecRest, OccursAt, Phrases;
    if r == Whole {
      PhraseTokens(ts, i, ws, "");
      PhrasesParsed(ts, i, ws, []);
      WordsAtKinds(ts, i, ws);
      ElementsAre(ts, i, |ws|, Phrases(ws, []));
      CclGrammar.RestEnds(ts, i + |ws|, Phrases(ws, []));
    } else {
      WordElement(ts, i, ws, r, "");
      FirstWord(ts, i, ws, r);
    }
  }

  lemma FirstWord(ts: seq<Token>, i: nat, ws: seq<string>, r: Relation)
    requires Splits(r) && GoodWords(ws) && ws != []
    requires OccursAt(ts, i, LeafTokens(ws, r, "")) && Closing(KindAt(ts, i + |LeafTokens(ws, r, "")|))
    ensures i + |LeafTokens(ws, r, "")| <= |ts|
    ensures FindSpecRest(ts, i + 1, TermNode(WordText(ws[0], true)))
         == Ok(ClauseMeaning(r, ws, true), i + |LeafTokens(ws, r, "")|)
  {
    hide Quoted, WellEscaped, FindSpecRest, OccursAt;
    var t, acc := Token(Term, "", Quoted(ws[0])), TermNode(WordText(ws[0], true));
    if |ws| > 1 {
      OccursSplit(ts, i, [t], SeparatorTokens(r) + LeafTokens(ws[1..], r, " "));
      ChainTokens(ts, i + 1, ws[1..], r, acc);
    } else {
      assert ws[1..] == [] && LeafTokens(ws, r, "") == [t];
      OccursSlice(ts, i, [t]);
      CclGrammar.RestEnds(ts, i + 1, acc);
    }
  }

  // ---- trees

  /** A parenthesised tree whose inside parses. */
  lemma ParenParsed(ts: seq<Token>, i: nat, p: Rpn, n: nat)
    requires KindAt(ts, i) == Lp && FindSpec(ts, i + 1) == Ok(p, i + 1 + n) && KindAt(ts, i + 1 + n) == Rp
    ensures SearchTerms2(ts, i) == Ok(p, i + n + 2)
    ensures !QualifierAhead(ts, i) && KindAt(ts, i) != Set
  {
    hide FindSpec;
  }

  /** Two parenthesised trees with an operator between them. */
  lemma BooleanParsed(ts: seq<Token>, i: nat, j: nat, e: nat, op: Operator, p: Rpn, q: Rpn)
    requires i < j < e <= |ts| && SearchTerms2(ts, i) == Ok(p, j) && !QualifierAhead(ts, i) && KindAt(ts, i) != Set
    requires OperatorTokens(op) == [ts[j]] && (op.JoinProx? ==> op.distance >= 0)
    requires SearchTerms2(ts, j + 1) == Ok(q, e) && !QualifierAhead(ts, j + 1) && KindAt(ts, j + 1) != Set
    requires Closing(KindAt(ts, e))
    ensures FindSpec(ts, i) == Ok(Joined(op, p, q), e)
  {
    hide SearchTerms2, SearchTerms, SearchTermsRest, SearchElements, QualifierAhead;
    if op.JoinProx? {
      ProxTaken(ts, i, j, p);
      CclGrammar.TermsRestEnds(ts, e, Joined(op, p, q));
      CclGrammar.RestEnds(ts, e, Joined(op, p, q));
      PlainElement(ts, i);
    } else {
      LastElement(ts, i, j, p);
      LastElement(ts, j + 1, e, q);
      CclGrammar.RestStep(ts, j, if op == JoinAnd then AndOp else if op == JoinOr then OrOp else NotOp, p, q, e);
      CclGrammar.RestEnds(ts, e, Joined(op, p, q));
    }
  }

  lemma PlainElement(ts: seq<Token>, i: nat)
    requires i <= |ts| && !QualifierAhead(ts, i) && KindAt(ts, i) != Set
    ensures SearchElements(ts, i) == SearchTerms(ts, i)
  {
    hide SearchTerms, QualifierAhead;
  }

  /** An element ends where neither a proximity operator nor a term follows. */
  lemma LastElement(ts: seq<Token>, i: nat, j: nat, p: Rpn)
    requires i < j <= |ts| && SearchTerms2(ts, i) == Ok(p, j) && !QualifierAhead(ts, i) && KindAt(ts, i) != Set
    requires KindAt(ts, j) != Prox && !IsTermKind(KindAt(ts, j))
    ensures SearchElements(ts, i) == Ok(p, j)
  {
    hide SearchTerms2, SearchTermsRest, SearchElements, QualifierAhead;
    CclGrammar.TermsRestEnds(ts, j, p);
    PlainElement(ts, i);
  }

  /** A proximity operator after the left side. */
  lemma ProxTaken(ts: seq<Token>, i: nat, j: nat, p: Rpn)
    requires i < j < |ts| && SearchTerms2(ts, i) == Ok(p, j) && KindAt(ts, j) == Prox
    ensures SearchTerms2(ts, j + 1).Bad? ==> SearchTerms(ts, i).Bad?
    ensures var q := SearchTerms2(ts, j + 1);
            q.Ok? ==> SearchTerms(ts, i) == SearchTermsRest(ts, q.next, ProxNode(p, q.node, ts[j].name))
  {
    hide SearchTerms2, SearchTermX, QualifierAhead;
  }

  /** No proximity has a negative distance. */
  predicate Distances(c: Cql<Query>)
    requires Good(c)
  {
    match c
    case Clause(_) => true
    case Boolean(op, ms, l, r) =>
      && (op == CqlProx ==> Resolve(op, ms).value.distance >= 0) && Distances(l) && Distances(r)
    case Sort(s) => Distances(s)
  }

  /** The parser rebuilds the tree from its tokens. */
  lemma {:induction false} TreeParsed(ts: seq<Token>, i: nat, c: Cql<Query>)
    requires Good(c) && Distances(c)
    requires OccursAt(ts, i, TreeTokens(c)) && Closing(KindAt(ts, i + |TreeTokens(c)|))
    ensures i + |TreeTokens(c)| <= |ts|
    ensures FindSpec(ts, i) == Ok(Meaning(c, true), i + |TreeTokens(c)|)
    decreases c
  {
    hide OccursAt, FindSpec, LeafTokens, ClauseWords, GoodWords, ClauseMeaning, Words, Joined, OperatorTokens,
         Resolve, Closing;
    match c
    case Clause(q) =>
      ClauseWordsNonEmpty(q.terms, Splits(q.relation));
      ClauseParsed(ts, i, ClauseWords(q.terms, Splits(q.relation)), q.relation);
    case Sort(s) =>
      TreeParsed(ts, i, s);
    case Boolean(connective, ms, l, r) =>
      var op := Resolve(connective, ms).value;
      var x, o, y := TreeTokens(l), OperatorTokens(op), TreeTokens(r);
      OneToken(connective, ms);
      assert op.JoinProx? ==> op.distance >= 0 by { ProxResolved(connective, ms); }
      BooleanTokens(ts, i, o, x, y);
      var j := i + |x| + 2;
      ClosingRp(ts, j - 1);
      TreeParsed(ts, i + 1, l);
      ClosingRp(ts, j + 2 + |y|);
      TreeParsed(ts, j + 2, r);
      BooleanCase(ts, i, j, op, |x|, |y|, Meaning(l, true), Meaning(r, true));
  }

  lemma ClosingRp(ts: seq<Token>, i: nat)
    requires i < |ts| && ts[i] == RP
    ensures Closing(KindAt(ts, i))
  {
  }

  lemma OneSlice(ts: seq<Token>, j: nat)
    requires j < |ts|
    ensures ts[j..j + 1] == [ts[j]]
  {
  }

  lemma BooleanCase(ts: seq<Token>, i: nat, j: nat, op: Operator, m: nat, n: nat, p: Rpn, q: Rpn)
    requires j == i + m + 2 && j + n + 3 <= |ts| && ts[i] == LP && ts[j - 1] == RP
    requires OperatorTokens(op) == ts[j..j + 1] && (op.JoinProx? ==> op.distance >= 0)
    requires ts[j + 1] == BLANK_LP && ts[j + 2 + n] == RP && Closing(KindAt(ts, j + n + 3))
    requires FindSpec(ts, i + 1) == Ok(p, i + 1 + m) && FindSpec(ts, j + 2) == Ok(q, j + 2 + n)
    ensures FindSpec(ts, i) == Ok(Joined(op, p, q), j + n + 3)
  {
    hide FindSpec, SearchTerms2, QualifierAhead, Joined, OperatorTokens;
    ParenParsed(ts, i, p, m);
    ParenParsed(ts, j + 1, q, n);
    OneSlice(ts, j);
    BooleanParsed(ts, i, j, j + n + 3, op, p, q);
  }

  lemma OneToken(op: Connective, ms: seq<Modifier>)
    requires Resolve(op, ms).Some? && (op == CqlProx ==> Resolve(op, ms).value.distance >= 0)
    ensures |OperatorTokens(Resolve(op, ms).value)| == 1
  {
    hide ProxLoop;
  }

  lemma ClauseWordsNonEmpty(terms: seq<string>, split: bool)
    requires terms != []
    ensures ClauseWords(terms, split) != []
  {
  }

  lemma BooleanTokens(ts: seq<Token>, i: nat, o: seq<Token>, x: seq<Token>, y: seq<Token>)
    requires o != [] && OccursAt(ts, i, [LP] + x + ([RP] + o + [BLANK_LP]) + y + [RP])
    ensures
      var j := i + |x| + 2;
      var k := j + |o|;
      var e := k + |y| + 2;
      && e <= |ts| && ts[i] == LP && OccursAt(ts, i + 1, x) && ts[j - 1] == RP && OccursAt(ts, j, o)
      && ts[j..k] == o && ts[k] == BLANK_LP && OccursAt(ts, k + 1, y) && ts[e - 1] == RP
  {
    hide OccursAt;
    OuterTokens(ts, i, x, [RP] + o + [BLANK_LP], y);
    MiddleTokens(ts, i + |x| + 1, o);
  }

  lemma OuterTokens(ts: seq<Token>, i: nat, x: seq<Token>, m: seq<Token>, y: seq<Token>)
    requires OccursAt(ts, i, [LP] + x + m + y + [RP])
    ensures
      var b := i + 1 + |x|;
      var e := b + |m| + |y|;
      && e < |ts| && ts[i] == LP && OccursAt(ts, i + 1, x) && OccursAt(ts, b, m)
      && OccursAt(ts, b + |m|, y) && ts[e] == RP
  {
    hide OccursAt;
    OccursSplit(ts, i, [LP] + x + m + y, [RP]);
    OccursOne(ts, i + 1 + |x| + |m| + |y|, RP);
    OccursSplit(ts, i, [LP] + x + m, y);
    OccursSplit(ts, i, [LP] + x, m);
    OccursSplit(ts, i, [LP], x);
    OccursOne(ts, i, LP);
  }

  lemma MiddleTokens(ts: seq<Token>, i: nat, o: seq<Token>)
    requires OccursAt(ts, i, [RP] + o + [BLANK_LP])
    ensures var k := i + 1 + |o|;
            k < |ts| && ts[i] == RP && OccursAt(ts, i + 1, o) && ts[i + 1..k] == o && ts[k] == BLANK_LP
  {
    hide OccursAt;
    OccursSplit(ts, i, [RP] + o, [BLANK_LP]);
    OccursSplit(ts, i, [RP], o);
    OccursSlice(ts, i + 1, o);
    OccursOne(ts, i, RP);
    OccursOne(ts, i + 1 + |o|, BLANK_LP);
  }

  // ---- negative distances

  /** Parsing fails, or stops in front of a parenthesis. */
  predicate Broken(ts: seq<Token>, r: Parsed) {
    r.Bad? || KindAt(ts, r.next) == Lp
  }

  lemma ParenBroken(ts: seq<Token>, i: nat)
    requires i < |ts| && KindAt(ts, i) == Lp && Broken(ts, FindSpec(ts, i + 1))
    ensures SearchTerms2(ts, i).Bad?
  {
    hide FindSpec;
  }

  /** The left side fails. */
  lemma LeftBroken(ts: seq<Token>, i: nat)
    requires i < |ts| && ts[i] == LP && Broken(ts, FindSpec(ts, i + 1))
    ensures Broken(ts, FindSpec(ts, i))
  {
    hide SearchTerms2;
    assert SearchTerms2(ts, i).Bad? by { ParenBroken(ts, i); }
    assert SearchTerms(ts, i).Bad?;
    assert SearchElements(ts, i).Bad?;
  }

  /** The right side fails. */
  lemma RightBroken(ts: seq<Token>, i: nat, j: nat, op: Operator, p: Rpn)
    requires i + 1 < j && j + 1 < |ts| && ts[i] == LP && FindSpec(ts, i + 1) == Ok(p, j - 1) && ts[j - 1] == RP
    requires OperatorTokens(op) == ts[j..j + 1] && (op.JoinProx? ==> op.distance >= 0)
    requires ts[j + 1] == BLANK_LP && Broken(ts, FindSpec(ts, j + 2))
    ensures Broken(ts, FindSpec(ts, i))
  {
    hide SearchTerms2, QualifierAhead, FindSpec, OperatorTokens;
    ParenParsed(ts, i, p, j - i - 2);
    ParenBroken(ts, j + 1);
    OneSlice(ts, j);
    SidesBroken(ts, i, j, op, p);
  }

  lemma SidesBroken(ts: seq<Token>, i: nat, j: nat, op: Operator, p: Rpn)
    requires i < j && j + 1 < |ts| && KindAt(ts, i) == Lp && SearchTerms2(ts, i) == Ok(p, j) && !QualifierAhead(ts, i)
    requires OperatorTokens(op) == [ts[j]] && (op.JoinProx? ==> op.distance >= 0)
    requires KindAt(ts, j + 1) == Lp && SearchTerms2(ts, j + 1).Bad?
    ensures FindSpec(ts, i).Bad?
  {
    hide SearchTerms2, SearchTerms, SearchTermsRest, SearchElements, FindSpecRest, QualifierAhead, IntText;
    if op.JoinProx? {
      ProxTaken(ts, i, j, p);
      PlainElement(ts, i);
    } else {
      LastElement(ts, i, j, p);
      BadElement(ts, j + 1);
      RestBroken(ts, j, p);
    }
  }

  lemma RestBroken(ts: seq<Token>, i: nat, p: Rpn)
    requires i < |ts| && OpOf(ts[i].kind) != [] && SearchElements(ts, i + 1).Bad?
    ensures FindSpecRest(ts, i, p).Bad?
  {
    hide SearchElements;
  }

  lemma BadElement(ts: seq<Token>, i: nat)
    requires i <= |ts| && KindAt(ts, i) == Lp && SearchTerms2(ts, i).Bad?
    ensures SearchElements(ts, i).Bad?
  {
    hide SearchTerms2, SearchTermsRest;
  }

  /** The number of a negative distance is taken for the right side of the proximity. */
  lemma NegativeStops(ts: seq<Token>, i: nat, j: nat, op: Operator, p: Rpn)
    requires op.JoinProx? && op.distance < 0
    requires i + 1 < j && j + 2 < |ts| && ts[i] == LP && FindSpec(ts, i + 1) == Ok(p, j - 1) && ts[j - 1] == RP
    requires OperatorTokens(op) == ts[j..j + 2] && ts[j + 2] == BLANK_LP
    ensures Broken(ts, FindSpec(ts, i))
  {
    hide FindSpec, SearchTerms2, QualifierAhead, IntText;
    ParenParsed(ts, i, p, j - i - 2);
    assert ts[j] == ts[j..j + 2][0] && ts[j + 1] == ts[j..j + 2][1];
    NumberTaken(ts, i, j, p);
  }

  lemma NumberTaken(ts: seq<Token>, i: nat, j: nat, p: Rpn)
    requires i < j && j + 2 < |ts| && SearchTerms2(ts, i) == Ok(p, j) && !QualifierAhead(ts, i) && KindAt(ts, i) == Lp
    requires ts[j].kind == Prox && ts[j + 1].kind == Term && ts[j + 2].kind == Lp
    ensures Broken(ts, FindSpec(ts, i))
  {
    hide SearchTerms2, SearchTermX, QualifierAhead;
    var q := SearchTerms2(ts, j + 1);
    TermOrBad(ts, j + 1);
    if q.Ok? {
      var node := ProxNode(p, q.node, ts[j].name);
      assert SearchTermsRest(ts, j + 2, node) == Ok(node, j + 2);
      assert SearchTermsRest(ts, j, p) == Ok(node, j + 2);
      assert SearchTerms(ts, i) == Ok(node, j + 2);
      assert SearchElements(ts, i) == Ok(node, j + 2);
      assert FindSpecRest(ts, j + 2, node) == Ok(node, j + 2);
    } else {
      assert SearchTermsRest(ts, j, p).Bad?;
      assert SearchTerms(ts, i).Bad?;
      assert SearchElements(ts, i).Bad?;
    }
  }

  lemma TermOrBad(ts: seq<Token>, i: nat)
    requires i + 1 < |ts| && ts[i].kind == Term && ts[i + 1].kind == Lp
    ensures var r := SearchTerms2(ts, i); r.Ok? ==> r.next == i + 1
  {
    hide TermText, FindSpec;
    CclGrammar.RunIs(ts, i, 1);
    CclGrammar.RunIs(ts, i + 1, 0);
    var t := TermText(ts, i, 1, "");
    if t.0 {
      assert SearchTermX(ts, i + 1, [TermNode(t.1)]) == Ok(TermNode(t.1), i + 1);
      assert SearchTermX(ts, i, []) == Ok(TermNode(t.1), i + 1);
    }
  }

  lemma {:induction false} TreeBroken(ts: seq<Token>, i: nat, c: Cql<Query>)
    requires Good(c) && !Distances(c)
    requires OccursAt(ts, i, TreeTokens(c)) && Closing(KindAt(ts, i + |TreeTokens(c)|))
    ensures i <= |ts| && Broken(ts, FindSpec(ts, i))
    decreases c
  {
    hide OccursAt, FindSpec, LeafTokens, ClauseWords, GoodWords, ClauseMeaning, Words, Joined, OperatorTokens,
         Resolve, Meaning, Broken;
    match c
    case Sort(s) =>
      TreeBroken(ts, i, s);
    case Boolean(connective, ms, l, r) =>
      var op := Resolve(connective, ms).value;
      var x, o, y := TreeTokens(l), OperatorTokens(op), TreeTokens(r);
      assert op.JoinProx? <==> connective == CqlProx by { ProxResolved(connective, ms); }
      BooleanTokens(ts, i, o, x, y);
      var j := i + |x| + 2;
      var k := j + |o|;
      if !Distances(l) {
        TreeBroken(ts, i + 1, l);
        LeftBroken(ts, i);
      } else {
        TreeParsed(ts, i + 1, l);
        if op.JoinProx? && op.distance < 0 {
          assert |o| == 2 by { TwoTokens(op); }
          NegativeStops(ts, i, j, op, Meaning(l, true));
        } else {
          assert |o| == 1 by { OneToken(connective, ms); }
          TreeBroken(ts, k + 1, r);
          RightBroken(ts, i, j, op, Meaning(l, true));
        }
      }
  }

  lemma TwoTokens(op: Operator)
    requires op.JoinProx? && op.distance < 0
    ensures |OperatorTokens(op)| == 2
  {
  }

  lemma ProxResolved(op: Connective, ms: seq<Modifier>)
    requires Resolve(op, ms).Some?
    ensures Resolve(op, ms).value.JoinProx? <==> op == CqlProx
  {
  }

  // ---- whole queries

  /** Printing a tree, tokenizing the text and parsing the tokens gives the tree as its words are read, if
      no distance is negative, and an error otherwise. */
  lemma QueryRead(c: Cql<Query>)
    requires Good(c)
    ensures Printable(c)
    ensures var r := FindToken(Tokenize(Print(c)));
            if Distances(c) then r == Ok(Meaning(c, true), |TreeTokens(c)|) else r.Bad?
  {
    hide FindSpec, Print, Printable, Good, Meaning, TreeTokens, Tokenize, OccursAt, Distances;
    GoodIsPrintable(c);
    TextTokens(c);
    var ts := Tokenize(Print(c));
    if Distances(c) {
      TreeParsed(ts, 0, c);
    } else {
      TreeBroken(ts, 0, c);
    }
  }

  lemma TextTokens(c: Cql<Query>)
    requires Good(c) && Printable(c)
    ensures OccursAt(Tokenize(Print(c)), 0, TreeTokens(c))
    ensures KindAt(Tokenize(Print(c)), |TreeTokens(c)|) == Eol
  {
    hide Print, Good, TreeTokens, Printable, Lex, OccursAt;
    var t := Print(c);
    Prefix(t, "");
    assert t + "" == t;
    LexTree(t, 0, c);
    EndOfText(t);
    Prefix(TreeTokens(c), [Token(Eol, "", "")]);
  }

  lemma Prefix<T>(a: seq<T>, b: seq<T>)
    ensures OccursAt(a + b, 0, a)
  {
  }

  lemma EndOfText(t: string)
    ensures Lex(t, |t|) == [Token(Eol, "", "")]
  {
    assert t[|t|..|t|] == "";
  }
}
