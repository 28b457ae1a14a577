/** The errors of the CCL parser, src/cclfind.c:588-1300 with an empty bibset: every token list that is no query
    begins with a fault, and the fault decides the error code. */
module CclErrors {
  import opened Bytes
  import opened Pieces
  import opened CclTokens
  import opened CclFind
  import opened CclGrammar

  /** A fault in a query: in its first elements, or in elements behind an operator. */
  datatype SpecFault = Begins(first: ElementsFault) | Behind(left: Spec, op: Token, right: ElementsFault)

  /** A set without a name, a qualifier, or a fault in the terms. */
  datatype ElementsFault =
    | NoName(keyword: Token, eq: seq<Token>, next: Token)
    | Qualified(names: seq<Token>, commas: seq<Token>, rel: Token)
    | InTerms(terms: TermsFault)

  datatype TermsFault = First(operand: OperandFault) | Later(left: Terms, how: seq<Token>, right: OperandFault)

  /** No operand at all, a masked word, or a parenthesis that is not closed or has a fault inside. */
  datatype OperandFault =
    | Missing(next: Token)
    | Masked(words: seq<Token>, next: Token)
    | Unclosed(lp: Token, inner: Spec, next: Token)
    | Inside(lp: Token, fault: SpecFault)

  /** What cannot go on a query: behind a set only operators can. */
  predicate Stops(c: Spec, k: Kind) { k !in {And, Or, Not} && (EndsInSet(c) || k in {Eol, Lp, Rp}) }

  predicate IsWord(k: Kind) { k in {Term, Comma, Eq, Rel, Set} }

  predicate IsSpecFault(f: SpecFault) {
    match f
    case Begins(e) => IsElementsFault(e)
    case Behind(l, op, e) => SpecOk(l) && op.kind in {And, Or, Not} && IsElementsFault(e)
  }

  predicate IsElementsFault(e: ElementsFault) {
    match e
    case NoName(keyword, eq, next) =>
      && keyword.kind == Set && next.kind != Term
      && (if eq == [] then next.kind != Eq else |eq| == 1 && eq[0].kind == Eq)
    case Qualified(names, commas, rel) => IsQualifier(names, commas, rel)
    case InTerms(t) =>
      && IsTermsFault(t)
      && match t
         case First(x) => x.Masked? ==> x.words != [] && x.words[0].kind != Set && !QualifierAhead(x.words, 0)
         case Later(l, _, _) => ElementsOk(Near(l))
  }

  predicate IsTermsFault(t: TermsFault) {
    match t
    case First(x) => IsOperandFault(x)
    case Later(l, how, x) =>
      && TermsOk(l) && IsOperandFault(x)
      && (if how == [] then EndsInParen(l) && x.Masked? else |how| == 1 && how[0].kind == Prox)
  }

  predicate IsOperandFault(x: OperandFault) {
    match x
    case Missing(next) => next.kind != Lp && !IsWord(next.kind)
    case Masked(ws, next) => ws != [] && AreWords(ws) && !IsWord(next.kind) && PhraseTree(ws, []).None?
    case Unclosed(lp, c, next) => lp.kind == Lp && SpecOk(c) && Stops(c, next.kind) && next.kind != Rp
    case Inside(lp, f) => lp.kind == Lp && IsSpecFault(f)
  }

  // ---- tokens and errors

  function SpecFaultTokens(f: SpecFault): seq<Token> {
    match f
    case Begins(e) => ElementsFaultTokens(e)
    case Behind(l, op, e) => SpecTokens(l) + ([op] + ElementsFaultTokens(e))
  }

  function ElementsFaultTokens(e: ElementsFault): seq<Token> {
    match e
    case NoName(keyword, eq, next) => [keyword] + (eq + [next])
    case Qualified(names, commas, rel) => (if |names| == |commas| + 1 then Listed(names, commas) else []) + [rel]
    case InTerms(t) => TermsFaultTokens(t)
  }

  function TermsFaultTokens(t: TermsFault): seq<Token> {
    match t
    case First(x) => OperandFaultTokens(x)
    case Later(l, how, x) => TermsTokens(l) + (how + OperandFaultTokens(x))
  }

  function OperandFaultTokens(x: OperandFault): seq<Token> {
    match x
    case Missing(next) => [next]
    case Masked(ws, next) => ws + [next]
    case Unclosed(lp, c, next) => [lp] + (SpecTokens(c) + [next])
    case Inside(lp, f) => [lp] + SpecFaultTokens(f)
  }

  function SpecError(f: SpecFault): Error {
    match f
    case Begins(e) => ElementsError(e)
    case Behind(_, _, e) => ElementsError(e)
  }

  function ElementsError(e: ElementsFault): Error {
    match e
    case NoName(_, _, _) => SetnameExpected
    case Qualified(_, _, _) => UnknownQual
    case InTerms(First(x)) => OperandError(x)
    case InTerms(Later(_, _, x)) => OperandError(x)
  }

  function OperandError(x: OperandFault): Error {
    match x
    case Missing(_) => TermExpected
    case Masked(_, _) => Truncation
    case Unclosed(_, _, _) => RpExpected
    case Inside(_, f) => SpecError(f)
  }

  // ---- faults are reported

  lemma WordKindIs(k: Kind)
    ensures IsTermKind(k) <==> IsWord(k)
    ensures OpOf(k) == [] <==> k !in {And, Or, Not}
  {
  }

  /** The last token, behind the others. */
  lemma LastAt(ts: seq<Token>, i: nat, a: seq<Token>, t: Token)
    requires OccursAt(ts, i, a + [t])
    ensures OccursAt(ts, i, a) && i + |a| < |ts| && ts[i + |a|] == t && KindAt(ts, i + |a|) == t.kind
  {
    hide OccursAt;
    OccursSplit(ts, i, a, [t]);
    OccursOne(ts, i + |a|, t);
  }

  lemma FirstAt(ts: seq<Token>, i: nat, t: Token, rest: seq<Token>)
    requires OccursAt(ts, i, [t] + rest)
    ensures i < |ts| && ts[i] == t && KindAt(ts, i) == t.kind && OccursAt(ts, i + 1, rest)
  {
    hide OccursAt;
    OccursSplit(ts, i, [t], rest);
    OccursOne(ts, i, t);
  }

  lemma {:induction false} OperandReported(ts: seq<Token>, i: nat, x: OperandFault)
    requires IsOperandFault(x) && OccursAt(ts, i, OperandFaultTokens(x))
    ensures i < |ts| && SearchTerms2(ts, i) == Bad(OperandError(x))
    decreases x
  {
    hide OccursAt, SearchTermX, PhraseTree, FindSpec, FindSpecRest, SpecOk, SpecTree, KindAt, IsTermKind;
    match x
    case Missing(next) =>
      OccursOne(ts, i, next);
      NoOperand(ts, i);
    case Masked(ws, next) =>
      LastAt(ts, i, ws, next);
      WordKindIs(next.kind);
      FirstWord(ts, i, ws);
      WordIsNoParen(ts, i);
      PhraseParsed(ts, i, ws, []);
    case Unclosed(lp, c, next) =>
      FirstAt(ts, i, lp, SpecTokens(c) + [next]);
      LastAt(ts, i + 1, SpecTokens(c), next);
      SpecEnds(ts, i + 1, c, next.kind);
    case Inside(lp, f) =>
      FirstAt(ts, i, lp, SpecFaultTokens(f));
      SpecReported(ts, i + 1, f);
  }

  /** A query is read up to where it stops. */
  lemma SpecEnds(ts: seq<Token>, i: nat, c: Spec, k: Kind)
    requires SpecOk(c) && OccursAt(ts, i, SpecTokens(c)) && KindAt(ts, i + |SpecTokens(c)|) == k && Stops(c, k)
    ensures var e := i + |SpecTokens(c)|; i < e <= |ts| && FindSpec(ts, i) == Ok(SpecTree(c), e)
  {
    hide OccursAt, FindSpecRest, SearchElements, KindAt, IsTermKind;
    var e := i + |SpecTokens(c)|;
    OccursSlice(ts, i, SpecTokens(c));
    WordKindIs(k);
    if !EndsInSet(c) {
      SpecParsed(ts, i, c);
    } else {
      match c
      case One(x) => SetParsed(ts, i, x.keyword, x.eq, x.name);
      case Join(l, op, x) =>
        var j := i + |SpecTokens(l)|;
        OccursSplit(ts, i, SpecTokens(l), [op] + ElementsTokens(x));
        FirstAt(ts, j, op, ElementsTokens(x));
        WordKindIs(op.kind);
        SpecParsed(ts, i, l);
        SetParsed(ts, j + 1, x.keyword, x.eq, x.name);
        RestStep(ts, j, OpOf(op.kind)[0], SpecTree(l), ElementsTree(x), e);
    }
    RestEnds(ts, e, SpecTree(c));
  }

  lemma NoOperand(ts: seq<Token>, i: nat)
    requires i < |ts| && ts[i].kind != Lp && !IsWord(ts[i].kind)
    ensures SearchTerms2(ts, i) == Bad(TermExpected)
  {
    hide FindSpec, TermText, Run;
    WordKindIs(ts[i].kind);
    RunIs(ts, i, 0);
    SearchTermXStep(ts, i, []);
  }

  lemma WordIsNoParen(ts: seq<Token>, i: nat)
    requires i < |ts| && IsWord(ts[i].kind)
    ensures KindAt(ts, i) != Lp && KindAt(ts, i) != Prox
  {
  }

  lemma {:induction false} TermsReported(ts: seq<Token>, i: nat, t: TermsFault)
    requires IsTermsFault(t) && OccursAt(ts, i, TermsFaultTokens(t))
    ensures i < |ts| && SearchTerms(ts, i) == Bad(ElementsError(InTerms(t)))
    decreases t
  {
    hide OccursAt, SearchTerms2, SearchTermsRest, TermsOk, TermsTree, TermsTokens, IsOperandFault, OperandFaultTokens,
         KindAt, IsTermKind;
    match t
    case First(x) => OperandReported(ts, i, x);
    case Later(l, how, x) =>
      var j := i + |TermsTokens(l)|;
      OccursSplit(ts, i, TermsTokens(l), how + OperandFaultTokens(x));
      OccursSplit(ts, j, how, OperandFaultTokens(x));
      OperandReported(ts, j + |how|, x);
      BetweenFault(ts, j, how, x);
      TermsParsed(ts, i, l);
      RestReported(ts, j, how, TermsTree(l), OperandError(x));
  }

  /** What stands in front of a fault that is not in the first operand. */
  lemma BetweenFault(ts: seq<Token>, j: nat, how: seq<Token>, x: OperandFault)
    requires IsOperandFault(x) && (if how == [] then x.Masked? else |how| == 1 && how[0].kind == Prox)
    requires OccursAt(ts, j, how) && OccursAt(ts, j + |how|, OperandFaultTokens(x))
    ensures j < |ts|
    ensures if how == [] then IsTermKind(ts[j].kind) else how == [ts[j]] && !IsTermKind(KindAt(ts, j))
  {
    hide OccursAt, PhraseTree;
    if how == [] {
      LastAt(ts, j, x.words, x.next);
      FirstWord(ts, j, x.words);
    } else {
      assert how == [how[0]];
      OccursOne(ts, j, how[0]);
    }
  }

  lemma RestReported(ts: seq<Token>, j: nat, how: seq<Token>, acc: Rpn, e: Error)
    requires j < |ts| && (if how == [] then IsTermKind(ts[j].kind) else how == [ts[j]] && ts[j].kind == Prox)
    requires j + |how| <= |ts| && SearchTerms2(ts, j + |how|) == Bad(e)
    ensures SearchTermsRest(ts, j, acc) == Bad(e)
  {
    hide SearchTerms2;
  }

  lemma {:induction false} ElementsReported(ts: seq<Token>, i: nat, e: ElementsFault)
    requires IsElementsFault(e) && OccursAt(ts, i, ElementsFaultTokens(e))
    ensures i < |ts| && SearchElements(ts, i) == Bad(ElementsError(e))
    decreases e
  {
    hide OccursAt, SearchTerms, QualifierAhead, IsTermsFault, TermsFaultTokens, IsQualifier, Listed;
    match e
    case NoName(keyword, eq, next) => NoNameReported(ts, i, keyword, eq, next);
    case Qualified(names, commas, rel) =>
      QualifierSize(names, commas, rel);
      QualifiedReported(ts, i, names, commas, rel);
    case InTerms(t) =>
      TermsReported(ts, i, t);
      FaultNotQualified(ts, i, t);
  }

  lemma NoNameReported(ts: seq<Token>, i: nat, keyword: Token, eq: seq<Token>, next: Token)
    requires IsElementsFault(NoName(keyword, eq, next)) && OccursAt(ts, i, [keyword] + (eq + [next]))
    ensures i < |ts| && SearchElements(ts, i) == Bad(SetnameExpected)
  {
    hide OccursAt, SearchTerms;
    FirstAt(ts, i, keyword, eq + [next]);
    LastAt(ts, i + 1, eq, next);
    if eq != [] {
      assert eq == [eq[0]];
      OccursOne(ts, i + 1, eq[0]);
    }
  }

  lemma QualifiedReported(ts: seq<Token>, i: nat, names: seq<Token>, commas: seq<Token>, rel: Token)
    requires IsQualifier(names, commas, rel) && OccursAt(ts, i, Listed(names, commas) + [rel])
    ensures i < |ts| && SearchElements(ts, i) == Bad(UnknownQual)
  {
    hide SearchTerms, OccursAt;
    var l := Listed(names, commas) + [rel];
    OccursSlice(ts, i, l);
    assert ts[i..][..|l|] == ts[i..i + |l|];
    QualifierSeen(ts, i, names, commas, rel);
  }

  /** The terms with the fault do not begin with a set or a qualifier. */
  lemma FaultNotQualified(ts: seq<Token>, i: nat, t: TermsFault)
    requires IsElementsFault(InTerms(t)) && OccursAt(ts, i, TermsFaultTokens(t))
    ensures KindAt(ts, i) != Set && !QualifierAhead(ts, i)
  {
    hide OccursAt, TermsOk, TermsTokens, OperandFaultTokens, IsOperandFault, ElementsOk;
    match t
    case First(x) => OperandFaultNotQualified(ts, i, x);
    case Later(l, how, x) =>
      var j := i + |TermsTokens(l)|;
      OccursSplit(ts, i, TermsTokens(l), how + OperandFaultTokens(x));
      OccursSplit(ts, j, how, OperandFaultTokens(x));
      BetweenFault(ts, j, how, x);
      NotQualified(ts, i, l);
  }

  lemma OperandFaultNotQualified(ts: seq<Token>, i: nat, x: OperandFault)
    requires IsOperandFault(x) && OccursAt(ts, i, OperandFaultTokens(x))
    requires x.Masked? ==> x.words != [] && x.words[0].kind != Set && !QualifierAhead(x.words, 0)
    ensures KindAt(ts, i) != Set && !QualifierAhead(ts, i)
  {
    hide OccursAt, SpecOk, PhraseTree, SpecTokens, IsSpecFault, SpecFaultTokens;
    match x
    case Missing(next) => OccursOne(ts, i, next);
    case Masked(ws, next) =>
      LastAt(ts, i, ws, next);
      WordKindIs(next.kind);
      FirstWord(ts, i, ws);
      QualifierMoved(ts, i, ws, 0);
    case Unclosed(lp, c, next) => FirstAt(ts, i, lp, SpecTokens(c) + [next]);
    case Inside(lp, f) => FirstAt(ts, i, lp, SpecFaultTokens(f));
  }

  lemma {:induction false} SpecReported(ts: seq<Token>, i: nat, f: SpecFault)
    requires IsSpecFault(f) && OccursAt(ts, i, SpecFaultTokens(f))
    ensures i < |ts| && FindSpec(ts, i) == Bad(SpecError(f))
    decreases f
  {
    hide OccursAt, SearchElements, FindSpecRest, SpecOk, SpecTree, SpecTokens, IsElementsFault, ElementsFaultTokens,
         KindAt, IsTermKind;
    match f
    case Begins(e) => ElementsReported(ts, i, e);
    case Behind(l, op, e) =>
      var j := i + |SpecTokens(l)|;
      OccursSplit(ts, i, SpecTokens(l), [op] + ElementsFaultTokens(e));
      FirstAt(ts, j, op, ElementsFaultTokens(e));
      WordKindIs(op.kind);
      SpecParsed(ts, i, l);
      ElementsReported(ts, j + 1, e);
      OperatorReported(ts, j, SpecTree(l), ElementsError(e));
  }

  lemma OperatorReported(ts: seq<Token>, j: nat, acc: Rpn, e: Error)
    requires j < |ts| && ts[j].kind in {And, Or, Not} && SearchElements(ts, j + 1) == Bad(e)
    ensures FindSpecRest(ts, j, acc) == Bad(e)
  {
    hide SearchElements;
  }

  // ---- every error has its fault

  /** The tokens end in the end token, and nowhere else. */
  predicate Ended(ts: seq<Token>) {
    |ts| > 0 && ts[|ts| - 1].kind == Eol && NoEol(ts[..|ts| - 1])
  }

  lemma EndAhead(ts: seq<Token>, i: nat, j: nat)
    requires Ended(ts) && i <= j <= |ts| && i < |ts| && NoEol(ts[i..j])
    ensures j < |ts|
  {
    forall k | i <= k < j ensures ts[k].kind != Eol { assert ts[i..j][k - i] == ts[k]; }
  }

  lemma NotLast(ts: seq<Token>, i: nat)
    requires Ended(ts) && i < |ts| && ts[i].kind != Eol
    ensures i + 1 < |ts|
  {
  }

  lemma {:induction false} OperandFaultFound(ts: seq<Token>, i: nat) returns (x: OperandFault)
    requires Ended(ts) && i < |ts| && SearchTerms2(ts, i).Bad?
    ensures IsOperandFault(x) && OccursAt(ts, i, OperandFaultTokens(x)) && SearchTerms2(ts, i) == Bad(OperandError(x))
    ensures IsWord(ts[i].kind) ==> x.Masked?
    decreases |ts| - i, 1
  {
    hide SearchTermX, FindSpec, SpecOk, SpecTokens, IsSpecFault, SpecFaultTokens, OccursAt, Ended, PhraseTree;
    if ts[i].kind == Lp {
      NotLast(ts, i);
      if FindSpec(ts, i + 1).Bad? {
        var f := SpecFaultFound(ts, i + 1);
        x := Inside(ts[i], f);
        OccursHere(ts, i, i + 1, [ts[i]]);
        OccursJoin(ts, i, [ts[i]], SpecFaultTokens(f));
      } else {
        x := UnclosedFound(ts, i);
      }
    } else if IsWord(ts[i].kind) {
      x := MaskedFound(ts, i);
    } else {
      x := Missing(ts[i]);
      NoOperand(ts, i);
      OccursHere(ts, i, i + 1, [ts[i]]);
    }
  }

  lemma UnclosedFound(ts: seq<Token>, i: nat) returns (x: OperandFault)
    requires Ended(ts) && i + 1 < |ts| && ts[i].kind == Lp && FindSpec(ts, i + 1).Ok? && SearchTerms2(ts, i).Bad?
    ensures x.Unclosed? && IsOperandFault(x) && OccursAt(ts, i, OperandFaultTokens(x))
    ensures SearchTerms2(ts, i) == Bad(RpExpected)
  {
    hide FindSpec, SpecOk, SpecTokens, OccursAt, Ended, SearchTermX, IsTermKind;
    var c := SpecFound(ts, i + 1);
    var e := FindSpec(ts, i + 1).next;
    SpecHasNoEol(c);
    EndAhead(ts, i + 1, e);
    WordKindIs(ts[e].kind);
    x := Unclosed(ts[i], c, ts[e]);
    InBrackets(ts, i, e);
    OccursHere(ts, i, e + 1, OperandFaultTokens(x));
  }

  lemma WordsUpTo(ts: seq<Token>, i: nat) returns (e: nat)
    requires Ended(ts) && i < |ts|
    ensures i <= e < |ts| && AreWords(ts[i..e]) && !IsWord(ts[e].kind)
    decreases |ts| - i
  {
    if IsWord(ts[i].kind) {
      NotLast(ts, i);
      e := WordsUpTo(ts, i + 1);
      assert ts[i..e] == [ts[i]] + ts[i + 1..e];
    } else {
      e := i;
    }
  }

  lemma MaskedFound(ts: seq<Token>, i: nat) returns (x: OperandFault)
    requires Ended(ts) && i < |ts| && IsWord(ts[i].kind) && SearchTerms2(ts, i).Bad?
    ensures x.Masked? && IsOperandFault(x) && OccursAt(ts, i, OperandFaultTokens(x))
    ensures SearchTerms2(ts, i) == Bad(Truncation)
  {
    hide SearchTermX, FindSpec, OccursAt, Ended, PhraseTree, AreWords;
    var e := WordsUpTo(ts, i);
    var ws := ts[i..e];
    assert ts[i..e + 1] == ws + [ts[e]];
    OccursHere(ts, i, e, ws);
    OccursHere(ts, i, e + 1, ws + [ts[e]]);
    WordKindIs(ts[e].kind);
    PhraseParsed(ts, i, ws, []);
    x := Masked(ws, ts[e]);
  }

  lemma {:induction false} TermsFaultFound(ts: seq<Token>, i: nat) returns (t: TermsFault)
    requires Ended(ts) && i < |ts| && SearchTerms(ts, i).Bad?
    ensures IsTermsFault(t) && OccursAt(ts, i, TermsFaultTokens(t))
    ensures SearchTerms(ts, i) == Bad(ElementsError(InTerms(t)))
    ensures match t
            case First(x) => IsWord(ts[i].kind) ==> x.Masked?
            case Later(l, _, _) => FirstOperand(l).Phrase? ==> WordsEnd(ts, i, FirstOperand(l).words)
    decreases |ts| - i, 3
  {
    hide SearchTerms2, SearchTermsRest, IsOperandFault, OperandFaultTokens, OccursAt, Ended, TermsOk, TermsTokens,
         WordsEnd, OperandOk, OperandTokens;
    if SearchTerms2(ts, i).Bad? {
      var x := OperandFaultFound(ts, i);
      t := First(x);
    } else {
      var x := OperandFound(ts, i);
      var r := SearchTerms2(ts, i);
      if x.Phrase? { WordsFound(ts, i, x, r.next); }
      OneOperand(ts, r.next, x);
      t := RestFaultFound(ts, i, r.next, Single(x));
    }
  }

  lemma OneOperand(ts: seq<Token>, i: nat, x: Operand)
    requires OperandOk(x) && (x.Phrase? ==> !IsTermKind(KindAt(ts, i)))
    ensures TermsOk(Single(x)) && TermsTokens(Single(x)) == OperandTokens(x) && TermsTree(Single(x)) == OperandTree(x)
    ensures EndsInParen(Single(x)) || !IsTermKind(KindAt(ts, i))
  {
  }

  /** The proximity loop, once it has found `t`. */
  lemma {:induction false} RestFaultFound(ts: seq<Token>, i: nat, j: nat, t: Terms) returns (u: TermsFault)
    requires Ended(ts) && i < j <= |ts| && TermsOk(t) && TermsTokens(t) == ts[i..j]
    requires EndsInParen(t) || !IsTermKind(KindAt(ts, j))
    requires SearchTermsRest(ts, j, TermsTree(t)).Bad?
    ensures u.Later? && IsTermsFault(u) && OccursAt(ts, i, TermsFaultTokens(u))
    ensures SearchTermsRest(ts, j, TermsTree(t)) == Bad(ElementsError(InTerms(u)))
    ensures FirstOperand(u.left) == FirstOperand(t)
    decreases |ts| - j, 2
  {
    hide SearchTerms2, OperandOk, OperandTokens, OperandTree, IsOperandFault, OperandFaultTokens, OccursAt, Ended,
         IsTermKind, TermsOk, TermsTokens;
    TermsHaveNoEol(t);
    EndAhead(ts, i, j);
    var how := if ts[j].kind == Prox then [ts[j]] else [];
    var k := j + |how|;
    if how != [] { NotLast(ts, j); }
    WordKindIs(ts[j].kind);
    if SearchTerms2(ts, k).Bad? {
      var x := OperandFaultFound(ts, k);
      u := Later(t, how, x);
      LaterAt(ts, i, j, t, how, x);
    } else {
      var x := OperandFound(ts, k);
      var e := SearchTerms2(ts, k).next;
      WordIsOperand(ts, k);
      NextOperand(ts, i, j, t, how, x, e);
      u := RestFaultFound(ts, i, e, Within(t, how, x));
    }
  }

  lemma WordIsOperand(ts: seq<Token>, k: nat)
    requires k < |ts|
    ensures IsTermKind(ts[k].kind) ==> KindAt(ts, k) != Lp
    ensures KindAt(ts, k) == ts[k].kind
  {
  }

  lemma LaterAt(ts: seq<Token>, i: nat, j: nat, t: Terms, how: seq<Token>, x: OperandFault)
    requires i <= j < |ts| && TermsTokens(t) == ts[i..j] && (how == [] || how == [ts[j]])
    requires OccursAt(ts, j + |how|, OperandFaultTokens(x))
    ensures OccursAt(ts, i, TermsTokens(t) + (how + OperandFaultTokens(x)))
  {
    hide OccursAt, TermsTokens, OperandFaultTokens;
    OccursHere(ts, j, j + |how|, how);
    OccursJoin(ts, j, how, OperandFaultTokens(x));
    OccursHere(ts, i, j, TermsTokens(t));
    OccursJoin(ts, i, TermsTokens(t), how + OperandFaultTokens(x));
  }

  lemma {:induction false} ElementsFaultFound(ts: seq<Token>, i: nat) returns (e: ElementsFault)
    requires Ended(ts) && i < |ts| && SearchElements(ts, i).Bad?
    ensures IsElementsFault(e) && OccursAt(ts, i, ElementsFaultTokens(e))
    ensures SearchElements(ts, i) == Bad(ElementsError(e))
    decreases |ts| - i, 4
  {
    hide SearchTerms, IsTermsFault, TermsFaultTokens, OccursAt, Ended, QualifierAhead, Listed, IsQualifier;
    if ts[i].kind == Set {
      NotLast(ts, i);
      if ts[i + 1].kind == Eq { NotLast(ts, i + 1); }
      var j := if ts[i + 1].kind == Eq then i + 2 else i + 1;
      e := NoName(ts[i], ts[i + 1..j], ts[j]);
      assert ts[i..j + 1] == [ts[i]] + (ts[i + 1..j] + [ts[j]]);
      OccursHere(ts, i, j + 1, ElementsFaultTokens(e));
    } else if QualifierAhead(ts, i) {
      var names, commas, rel := QualifierFound(ts, i);
      QualifierSize(names, commas, rel);
      e := Qualified(names, commas, rel);
      PrefixAt(ts, i, Listed(names, commas) + [rel]);
    } else {
      var t := TermsFaultFound(ts, i);
      e := InTerms(t);
      FirstAllowed(ts, i, t);
    }
  }

  lemma QualifierSize(names: seq<Token>, commas: seq<Token>, rel: Token)
    requires IsQualifier(names, commas, rel)
    ensures |names| == |commas| + 1
  {
  }

  lemma PrefixAt(ts: seq<Token>, i: nat, a: seq<Token>)
    requires i <= |ts| && a <= ts[i..]
    ensures OccursAt(ts, i, a)
  {
    forall k | 0 <= k < |a| ensures ts[i + k] == a[k] { assert ts[i..][k] == a[k]; }
  }

  lemma FirstAllowed(ts: seq<Token>, i: nat, t: TermsFault)
    requires i < |ts| && ts[i].kind != Set && !QualifierAhead(ts, i) && IsTermsFault(t)
    requires OccursAt(ts, i, TermsFaultTokens(t))
    requires t.Later? && FirstOperand(t.left).Phrase? ==> WordsEnd(ts, i, FirstOperand(t.left).words)
    ensures IsElementsFault(InTerms(t))
  {
    hide OccursAt, QualifierAhead, PhraseTree, TermsOk, IsSpecFault, SpecFaultTokens, SpecOk, SpecTokens, TermsTokens,
         IsTermKind;
    match t
    case First(x) =>
      if x.Masked? {
        LastAt(ts, i, x.words, x.next);
        WordKindIs(x.next.kind);
        FirstWord(ts, i, x.words);
        QualifierMoved(ts, i, x.words, 0);
      }
    case Later(l, _, _) =>
      if FirstOperand(l).Phrase? {
        FirstWord(ts, i, FirstOperand(l).words);
        QualifierMoved(ts, i, FirstOperand(l).words, 0);
      }
  }

  lemma {:induction false} SpecFaultFound(ts: seq<Token>, i: nat) returns (f: SpecFault)
    requires Ended(ts) && i < |ts| && FindSpec(ts, i).Bad?
    ensures IsSpecFault(f) && OccursAt(ts, i, SpecFaultTokens(f)) && FindSpec(ts, i) == Bad(SpecError(f))
    decreases |ts| - i, 6
  {
    hide SearchElements, FindSpecRest, IsElementsFault, ElementsFaultTokens, OccursAt, Ended, ElementsOk, ElementsTree,
         ElementsTokens;
    if SearchElements(ts, i).Bad? {
      var e := ElementsFaultFound(ts, i);
      f := Begins(e);
    } else {
      var e := ElementsFound(ts, i);
      f := SpecRestFault(ts, i, SearchElements(ts, i).next, One(e));
    }
  }

  /** The operator loop, once it has found `c`. */
  lemma {:induction false} SpecRestFault(ts: seq<Token>, i: nat, j: nat, c: Spec) returns (f: SpecFault)
    requires Ended(ts) && i < j <= |ts| && SpecOk(c) && SpecTokens(c) == ts[i..j]
    requires FindSpecRest(ts, j, SpecTree(c)).Bad?
    ensures IsSpecFault(f) && OccursAt(ts, i, SpecFaultTokens(f))
    ensures FindSpecRest(ts, j, SpecTree(c)) == Bad(SpecError(f))
    decreases |ts| - j, 5
  {
    hide SearchElements, FindSpecRest, IsElementsFault, ElementsFaultTokens, OccursAt, Ended, ElementsOk, ElementsTree,
         ElementsTokens, SpecOk, SpecTokens, SpecTree;
    OperatorAhead(ts, j, SpecTree(c));
    NotLast(ts, j);
    if SearchElements(ts, j + 1).Bad? {
      var e := ElementsFaultFound(ts, j + 1);
      f := Behind(c, ts[j], e);
      BehindAt(ts, i, j, c, e);
      OperatorReported(ts, j, SpecTree(c), ElementsError(e));
    } else {
      var e := ElementsFound(ts, j + 1);
      var r := SearchElements(ts, j + 1);
      NextElements(ts, i, j, c, e, r.next);
      RestStep(ts, j, OpOf(ts[j].kind)[0], SpecTree(c), r.node, r.next);
      f := SpecRestFault(ts, i, r.next, Join(c, ts[j], e));
    }
  }

  lemma OperatorAhead(ts: seq<Token>, j: nat, acc: Rpn)
    requires j <= |ts| && FindSpecRest(ts, j, acc).Bad?
    ensures j < |ts| && ts[j].kind in {And, Or, Not} && OpOf(ts[j].kind) != []
  {
    hide SearchElements;
  }

  lemma NextElements(ts: seq<Token>, i: nat, j: nat, c: Spec, e: Elements, k: nat)
    requires i < j < k <= |ts| && OpOf(ts[j].kind) != [] && SpecOk(c) && SpecTokens(c) == ts[i..j]
    requires ElementsOk(e) && ElementsTokens(e) == ts[j + 1..k]
    ensures var d := Join(c, ts[j], e);
            && SpecOk(d) && SpecTokens(d) == ts[i..k]
            && SpecTree(d) == BoolNode(OpOf(ts[j].kind)[0], SpecTree(c), ElementsTree(e))
  {
    hide ElementsOk, ElementsTokens;
    assert ts[i..k] == ts[i..j] + ([ts[j]] + ts[j + 1..k]);
  }

  lemma BehindAt(ts: seq<Token>, i: nat, j: nat, c: Spec, e: ElementsFault)
    requires i <= j < |ts| && SpecTokens(c) == ts[i..j] && OccursAt(ts, j + 1, ElementsFaultTokens(e))
    ensures OccursAt(ts, i, SpecTokens(c) + ([ts[j]] + ElementsFaultTokens(e)))
  {
    hide OccursAt, SpecTokens, ElementsFaultTokens;
    OccursHere(ts, j, j + 1, [ts[j]]);
    OccursJoin(ts, j, [ts[j]], ElementsFaultTokens(e));
    OccursHere(ts, i, j, SpecTokens(c));
    OccursJoin(ts, i, SpecTokens(c), [ts[j]] + ElementsFaultTokens(e));
  }

  // ---- whole queries

  /** A fault in the query, or something behind it. */
  datatype QueryFault = Broken(fault: SpecFault) | Extra(query: Spec, next: Token)

  predicate IsQueryFault(q: QueryFault) {
    match q
    case Broken(f) => IsSpecFault(f)
    case Extra(c, next) => SpecOk(c) && Stops(c, next.kind) && next.kind != Eol
  }

  function QueryFaultTokens(q: QueryFault): seq<Token> {
    match q
    case Broken(f) => SpecFaultTokens(f)
    case Extra(c, next) => SpecTokens(c) + [next]
  }

  function QueryError(q: QueryFault): Error {
    match q
    case Broken(f) => SpecError(f)
    case Extra(_, next) => if next.kind == Rp then BadRp else OpExpected
  }

  lemma QueryReported(ts: seq<Token>, q: QueryFault)
    requires IsQueryFault(q) && OccursAt(ts, 0, QueryFaultTokens(q))
    ensures FindToken(ts) == Bad(QueryError(q))
  {
    hide OccursAt, FindSpec, IsSpecFault, SpecFaultTokens, SpecOk, SpecTokens, SpecTree, SpecError;
    match q
    case Broken(f) => SpecReported(ts, 0, f);
    case Extra(c, next) =>
      LastAt(ts, 0, SpecTokens(c), next);
      SpecEnds(ts, 0, c, next.kind);
  }

  lemma QueryFaultFound(ts: seq<Token>) returns (q: QueryFault)
    requires Ended(ts) && FindToken(ts).Bad?
    ensures IsQueryFault(q) && OccursAt(ts, 0, QueryFaultTokens(q))
  {
    hide OccursAt, FindSpec, IsSpecFault, SpecFaultTokens, SpecOk, SpecTokens, SpecTree, Ended;
    if FindSpec(ts, 0).Bad? {
      EndedNotEmpty(ts);
      var f := SpecFaultFound(ts, 0);
      q := Broken(f);
    } else {
      var c := SpecFound(ts, 0);
      var e := FindSpec(ts, 0).next;
      assert e < |ts|;
      WordKindIs(ts[e].kind);
      q := Extra(c, ts[e]);
      assert ts[0..e + 1] == ts[0..e] + [ts[e]];
      OccursHere(ts, 0, e + 1, SpecTokens(c) + [ts[e]]);
    }
  }

  lemma EndedNotEmpty(ts: seq<Token>)
    requires Ended(ts)
    ensures 0 < |ts|
  {
  }

  /** The parser reports an error if and only if the tokens begin with a fault, and the fault says which. */
  lemma ErrorsExactly(ts: seq<Token>, e: Error)
    requires Ended(ts)
    ensures FindToken(ts) == Bad(e) <==>
              exists q :: IsQueryFault(q) && OccursAt(ts, 0, QueryFaultTokens(q)) && QueryError(q) == e
  {
    hide OccursAt, FindToken, IsQueryFault, QueryFaultTokens, QueryError, Ended;
    if FindToken(ts) == Bad(e) {
      var q := QueryFaultFound(ts);
      QueryReported(ts, q);
    }
    if q :| IsQueryFault(q) && OccursAt(ts, 0, QueryFaultTokens(q)) && QueryError(q) == e {
      QueryReported(ts, q);
    }
  }
}
