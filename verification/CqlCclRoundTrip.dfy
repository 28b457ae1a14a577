/** From a CQL tree through CCL text and tokens to the RPN tree. */
module CqlCclRoundTrip {
  import opened Bytes
  import opened Pieces
  import opened Chars
  import opened CqlTree
  import opened CqlToCcl
  import opened CclTokens
  import opened CclFind
  import opened CclSpelling
  import opened CqlCclTerms

  // ---- words of a clause

  /** The words of one term, as the loop of node_st cuts them. */
  function Words(s: string, i: nat, split: bool): (ws: seq<string>)
    requires i <= |s|
    ensures |ws| >= 1
    decreases |s| - i
  {
    var e := WordEnd(s, i, split);
    var j := SkipBlanks(s, e);
    if j == |s| || j <= i then [s[i..e]] else [s[i..e]] + Words(s, j, split)
  }

  function ClauseWords(terms: seq<string>, split: bool): seq<string> {
    if terms == [] then [] else Words(terms[0], 0, split) + ClauseWords(terms[1..], split)
  }

  predicate GoodWords(ws: seq<string>) {
    forall k :: 0 <= k < |ws| ==> WellEscaped(ws[k])
  }

  /** Trees that can be printed, with words that hold no wildcards and no bare quotes. */
  predicate Good(c: Cql<Query>) {
    match c
    case Clause(q) =>
      && q.relation != Unsupported && q.terms != []
      && GoodWords(ClauseWords(q.terms, Splits(q.relation)))
    case Boolean(op, ms, l, r) => Good(l) && Resolve(op, ms).Some? && Good(r)
    case Sort(s) => Good(s)
  }

  // ---- the meaning of a tree

  /** A word in RPN: as the CCL parser reads it from its quotes, or as CQL means it. */
  function WordText(w: string, read: bool): string
    requires WellEscaped(w)
  {
    if read then Append(Quoted(w), 0, false).1 else Unescape(w)
  }

  /** Words in a row are one term, with a blank between them once there is text. */
  function Phrase(ws: seq<string>, text: string, read: bool): string
    requires GoodWords(ws)
  {
    if ws == [] then text
    else Phrase(ws[1..], (if text == "" then "" else text + " ") + WordText(ws[0], read), read)
  }

  function Chain(op: Op, acc: Rpn, ws: seq<string>, read: bool): Rpn
    requires GoodWords(ws)
    decreases |ws|
  {
    if ws == [] then acc else Chain(op, BoolNode(op, acc, TermNode(WordText(ws[0], read))), ws[1..], read)
  }

  /** The parser makes a term of at most MAX_PHRASE words and joins the terms by AND. */
  function Phrases(ws: seq<string>, top: seq<Rpn>): Rpn
    requires GoodWords(ws) && ws != [] && |top| <= 1
    decreases |ws|
  {
    var n := if |ws| <= MAX_PHRASE then |ws| else MAX_PHRASE;
    var term := TermNode(Phrase(ws[..n], "", true));
    var node := if top == [] then term else BoolNode(AndOp, top[0], term);
    if n == |ws| then node else Phrases(ws[n..], [node])
  }

  function ClauseMeaning(r: Relation, ws: seq<string>, read: bool): Rpn
    requires GoodWords(ws) && ws != []
  {
    if Splits(r) then Chain(if r == AllWords then AndOp else OrOp, TermNode(WordText(ws[0], read)), ws[1..], read)
    else if read then Phrases(ws, [])
    else TermNode(Phrase(ws, "", false))
  }

  function Joined(op: Operator, p: Rpn, q: Rpn): Rpn {
    match op
    case JoinAnd => BoolNode(AndOp, p, q)
    case JoinOr => BoolNode(OrOp, p, q)
    case JoinNot => BoolNode(NotOp, p, q)
    case JoinProx(o, d) => ProxNode(p, q, ProxText(o, d))
  }

  /** The RPN tree that a CQL tree stands for, or, with `read`, the one that the CCL parser makes of
      its words. */
  function Meaning(c: Cql<Query>, read: bool): Rpn
    requires Good(c)
  {
    match c
    case Clause(q) =>
      assert Words(q.terms[0], 0, Splits(q.relation)) != [];
      ClauseMeaning(q.relation, ClauseWords(q.terms, Splits(q.relation)), read)
    case Boolean(op, ms, l, r) => Joined(Resolve(op, ms).value, Meaning(l, read), Meaning(r, read))
    case Sort(s) => Meaning(s, read)
  }

  // ---- the text of a clause

  function LeafText(ws: seq<string>, r: Relation): string
    requires GoodWords(ws) && ws != []
  {
    if |ws| == 1 then Quoted(ws[0]) else Quoted(ws[0]) + Separator(r) + LeafText(ws[1..], r)
  }

  lemma {:induction false} LeafTextJoin(a: seq<string>, b: seq<string>, r: Relation)
    requires a != [] && b != [] && GoodWords(a) && GoodWords(b)
    ensures LeafText(a + b, r) == LeafText(a, r) + Separator(r) + LeafText(b, r)
    decreases |a|
  {
    hide Quoted, WellEscaped, Separator;
    assert (a + b)[1..] == a[1..] + b;
    if |a| > 1 {
      LeafTextJoin(a[1..], b, r);
      var q, sep, x, y := Quoted(a[0]), Separator(r), LeafText(a[1..], r), LeafText(b, r);
      assert q + sep + (x + sep + y) == (q + sep + x) + sep + y;
    } else {
      assert a[1..] + b == b;
    }
  }

  lemma {:induction false} PrWordsIs(s: string, i: nat, r: Relation)
    requires i <= |s| && GoodWords(Words(s, i, Splits(r)))
    ensures PrWords(s, i, r) == LeafText(Words(s, i, Splits(r)), r)
    decreases |s| - i
  {
    hide Quoted, WellEscaped, Separator, PrTerm;
    var split := Splits(r);
    var ws := Words(s, i, split);
    var e := WordEnd(s, i, split);
    assert ws[0] == s[i..e] && WellEscaped(ws[0]);
    PrTermIs(s, i, split);
    var j := SkipBlanks(s, e);
    if j < |s| {
      PieceProgress(s, i, split);
      assert ws[1..] == Words(s, j, split);
      PrWordsIs(s, j, r);
    }
  }

  lemma {:induction false} PrTermsIs(terms: seq<string>, r: Relation)
    requires terms != [] && GoodWords(ClauseWords(terms, Splits(r)))
    ensures ClauseWords(terms, Splits(r)) != []
    ensures PrTerms(terms, r) == LeafText(ClauseWords(terms, Splits(r)), r)
    decreases |terms|
  {
    hide WellEscaped, PrWords, Words, LeafText;
    var split := Splits(r);
    var first, rest := Words(terms[0], 0, split), ClauseWords(terms[1..], split);
    var ws := ClauseWords(terms, split);
    assert forall k :: 0 <= k < |first| ==> first[k] == ws[k];
    assert forall k :: 0 <= k < |rest| ==> rest[k] == ws[|first| + k];
    PrWordsIs(terms[0], 0, r);
    if |terms| == 1 {
      assert rest == [] && first + [] == first;
    } else {
      PrTermsIs(terms[1..], r);
      LeafTextJoin(first, rest, r);
    }
  }

  // ---- lexing

  /** The text goes on with something that ends a term. */
  predicate Stops(t: string, e: nat) {
    e == |t| || (e < |t| && EndsTerm(t[e]))
  }

  /** The text ends or a parenthesis closes. */
  predicate Closes(t: string, e: nat) {
    e == |t| || (e < |t| && t[e] == ')')
  }

  lemma {:induction false} QuoteEndIs(t: string, j: nat, s: string)
    requires WellEscaped(s) && OccursAt(t, j + 1, Body(s) + "\"")
    ensures QuoteEnd(t, j) == j + 1 + |Body(s)|
    decreases |s|
  {
    hide OccursAt;
    if s == "" {
      assert Body(s) + "\"" == "\"";
      OccursOne(t, j + 1, '\"');
    } else if s[0] == '\\' && StaysEscaped(s[1]) {
      var first, rest := ['\\', s[1]], Body(s[2..]) + "\"";
      Regroup(first, Body(s[2..]), "\"");
      OccursSplit(t, j + 1, first, rest);
      OccursTwo(t, j + 1, '\\', s[1]);
      QuoteEndIs(t, j + 2, s[2..]);
    } else {
      var c, s' := if s[0] == '\\' then s[1] else s[0], if s[0] == '\\' then s[2..] else s[1..];
      Regroup([c], Body(s'), "\"");
      OccursSplit(t, j + 1, [c], Body(s') + "\"");
      OccursOne(t, j + 1, c);
      QuoteEndIs(t, j + 1, s');
    }
  }

  /** A quoted word is one term token, never a keyword. */
  lemma ScanWord(t: string, i: nat, w: string)
    requires WellEscaped(w) && OccursAt(t, i, Quoted(w)) && Stops(t, i + |Quoted(w)|)
    ensures i < |t| && t[i] == '\"' && Scan(t, i) == (Term, i + |Quoted(w)|)
  {
    hide QuoteEnd, OccursAt, Body, WellEscaped, TermEnd, WordKind;
    var b := Body(w) + "\"";
    assert Quoted(w) == "\"" + b;
    OccursSplit(t, i, "\"", b);
    OccursOne(t, i, '\"');
    QuoteEndIs(t, i, w);
    var e := i + 1 + |Body(w)|;
    OccursSlice(t, i + 1, b);
    QuotedEnds(t, i, e);
    assert t[i..e + 1][0] == t[i];
    QuotedIsTerm(t[i..e + 1]);
  }

  lemma QuotedEnds(t: string, i: nat, e: nat)
    requires i < e < |t| && t[i] == '\"' && QuoteEnd(t, i) == e && Stops(t, e + 1)
    ensures TermEnd(t, i) == e + 1
  {
    assert TermEnd(t, e + 1) == e + 1;
  }

  lemma QuotedIsTerm(name: string)
    requires name != "" && name[0] == '\"'
    ensures WordKind(name) == Term
  {
    assert "and"[0] != '\"' && "or"[0] != '\"' && "not"[0] != '\"' && "andnot"[0] != '\"' && "set"[0] != '\"';
  }

  /** One token, with or without a blank in front. */
  lemma LexOne(t: string, i: nat, kind: Kind, end: nat)
    requires i < |t| && !IsSpace(t[i]) && Scan(t, i) == (kind, end)
    ensures Lex(t, i) == [Token(kind, "", t[i..end])] + Lex(t, end)
    ensures i > 0 && t[i - 1] == ' ' ==> Lex(t, i - 1) == [Token(kind, " ", t[i..end])] + Lex(t, end)
  {
    hide Scan;
    assert t[i..i] == "";
    assert i > 0 && t[i - 1] == ' ' ==> SkipSpace(t, i - 1) == i && t[i - 1..i] == " ";
  }

  predicate IsKeyword(word: string) {
    word == "and" || word == "or" || word == "not"
  }

  lemma KeywordIsPlain(word: string, k: nat)
    requires IsKeyword(word) && k < |word|
    ensures word[k] != '\\' && word[k] != '\"' && !EndsTerm(word[k])
    ensures word[0] != '(' && word[0] != ')' && word[0] != ',' && word[0] != '%' && word[0] != '!' &&
        !IsRelChar(word[0])
  {
  }

  lemma ScanKeyword(t: string, i: nat, word: string)
    requires IsKeyword(word) && OccursAt(t, i, word + " ")
    ensures i < |t| && !IsSpace(t[i]) && Scan(t, i) == (WordKind(word), i + |word|)
  {
    hide TermEnd, WordKind;
    OccursSplit(t, i, word, " ");
    var e := i + |word|;
    assert t[e + 0] == " "[0];
    forall k | i <= k < e ensures t[k] != '\\' && t[k] != '\"' && !EndsTerm(t[k]) {
      assert t[k] == t[i..e][k - i];
      KeywordIsPlain(word, k - i);
    }
    assert t[i] == t[i..e][0];
    KeywordIsPlain(word, 0);
    TermEndPlain(t, i, e);
  }

  function SeparatorTokens(r: Relation): seq<Token> {
    match r
    case AllWords => [Token(And, " ", "and")]
    case AnyWords => [Token(Or, " ", "or")]
    case _ => []
  }

  function LeafTokens(ws: seq<string>, r: Relation, blank: string): seq<Token>
    requires GoodWords(ws) && ws != []
  {
    [Token(Term, blank, Quoted(ws[0]))]
    + (if |ws| == 1 then [] else SeparatorTokens(r) + LeafTokens(ws[1..], r, " "))
  }

  /** The separator, up to the blank in front of the next word. */
  lemma LexSeparator(t: string, i: nat, r: Relation)
    requires r != Unsupported && OccursAt(t, i, Separator(r))
    ensures
      var e := i + |Separator(r)|;
      e - 1 < |t| && t[e - 1] == ' ' && t[i] == ' ' && Lex(t, i) == SeparatorTokens(r) + Lex(t, e - 1)
  {
    hide Lex, OccursAt;
    if r == AllWords {
      assert Separator(r) == " " + ("and" + " ");
      KeywordBetween(t, i, "and");
    } else if r == AnyWords {
      assert Separator(r) == " " + ("or" + " ");
      KeywordBetween(t, i, "or");
    } else {
      OccursOne(t, i, ' ');
      assert [] + Lex(t, i) == Lex(t, i);
    }
  }

  /** A keyword between two blanks. */
  lemma KeywordBetween(t: string, i: nat, word: string)
    requires IsKeyword(word) && OccursAt(t, i, " " + (word + " "))
    ensures
      var e := i + 1 + |word|;
      e < |t| && t[i] == ' ' && t[e] == ' ' && Lex(t, i) == [Token(WordKind(word), " ", word)] + Lex(t, e)
  {
    hide Lex, Scan, WordKind, OccursAt;
    OccursSplit(t, i, " ", word + " ");
    OccursOne(t, i, ' ');
    ScanKeyword(t, i + 1, word);
    OccursSplit(t, i + 1, word, " ");
    OccursOne(t, i + 1 + |word|, ' ');
    LexOne(t, i + 1, WordKind(word), i + 1 + |word|);
  }

  /** The tokens of a clause; `i` is where its text starts, `blank` what comes before it. */
  lemma {:induction false} LexLeaf(t: string, i: nat, ws: seq<string>, r: Relation, blank: string)
    requires GoodWords(ws) && ws != [] && r != Unsupported
    requires OccursAt(t, i, LeafText(ws, r)) && Closes(t, i + |LeafText(ws, r)|)
    requires blank == "" || (blank == " " && i > 0 && t[i - 1] == ' ')
    ensures Lex(t, i - |blank|) == LeafTokens(ws, r, blank) + Lex(t, i + |LeafText(ws, r)|)
    decreases |ws|
  {
    hide OccursAt, Quoted, WellEscaped, Separator, Lex, SeparatorTokens, LeafText, LeafTokens, Closes;
    OccursSlice(t, i, LeafText(ws, r));
    if |ws| == 1 {
      LastWord(t, i, ws, r, blank);
    } else {
      LeafStep(t, i, ws, r, blank);
      LexLeaf(t, i + |Quoted(ws[0])| + |Separator(r)|, ws[1..], r, " ");
      LeafTokensStep(ws, r, blank);
      var word, rest := [Token(Term, blank, Quoted(ws[0]))], LeafTokens(ws[1..], r, " ");
      Regroup3(word, SeparatorTokens(r), rest, Lex(t, i + |LeafText(ws, r)|));
    }
  }

  lemma LeafTokensStep(ws: seq<string>, r: Relation, blank: string)
    requires GoodWords(ws) && |ws| > 1
    ensures LeafTokens(ws, r, blank) ==
              [Token(Term, blank, Quoted(ws[0]))] + (SeparatorTokens(r) + LeafTokens(ws[1..], r, " "))
  {
    hide Quoted, WellEscaped, SeparatorTokens;
  }

  lemma LeafOfOne(ws: seq<string>, r: Relation, blank: string)
    requires GoodWords(ws) && |ws| == 1
    ensures LeafText(ws, r) == Quoted(ws[0]) && LeafTokens(ws, r, blank) == [Token(Term, blank, Quoted(ws[0]))]
  {
    hide Quoted, WellEscaped, SeparatorTokens;
  }

  lemma ClosesStops(t: string, e: nat)
    requires Closes(t, e)
    ensures Stops(t, e)
  {
  }

  /** The last word of a clause. */
  lemma LastWord(t: string, i: nat, ws: seq<string>, r: Relation, blank: string)
    requires GoodWords(ws) && |ws| == 1
    requires OccursAt(t, i, LeafText(ws, r)) && Closes(t, i + |LeafText(ws, r)|)
    requires blank == "" || (blank == " " && i > 0 && t[i - 1] == ' ')
    ensures Lex(t, i - |blank|) == LeafTokens(ws, r, blank) + Lex(t, i + |LeafText(ws, r)|)
  {
    hide OccursAt, Quoted, WellEscaped, Lex, LeafText, LeafTokens, Closes, Stops;
    LeafOfOne(ws, r, blank);
    ClosesStops(t, i + |LeafText(ws, r)|);
    WordToken(t, i, ws[0], blank);
  }

  lemma Regroup3(w: seq<Token>, a: seq<Token>, b: seq<Token>, c: seq<Token>)
    ensures (w + a) + (b + c) == w + (a + b) + c
  {
  }

  /** A word and the separator behind it. */
  lemma LeafStep(t: string, i: nat, ws: seq<string>, r: Relation, blank: string)
    requires GoodWords(ws) && |ws| > 1 && r != Unsupported
    requires OccursAt(t, i, LeafText(ws, r))
    requires blank == "" || (blank == " " && i > 0 && t[i - 1] == ' ')
    ensures
      var e := i + |Quoted(ws[0])| + |Separator(r)|;
      && 0 < e <= |t| && t[e - 1] == ' ' && OccursAt(t, e, LeafText(ws[1..], r))
      && i + |LeafText(ws, r)| == e + |LeafText(ws[1..], r)|
      && Lex(t, i - |blank|) == [Token(Term, blank, Quoted(ws[0]))] + SeparatorTokens(r) + Lex(t, e - 1)
  {
    hide OccursAt, Quoted, WellEscaped, Separator, Lex, SeparatorTokens;
    var q := Quoted(ws[0]);
    OccursSplit(t, i, q + Separator(r), LeafText(ws[1..], r));
    OccursSplit(t, i, q, Separator(r));
    LexSeparator(t, i + |q|, r);
    WordToken(t, i, ws[0], blank);
    var w, a, b := [Token(Term, blank, q)], SeparatorTokens(r), Lex(t, i + |q| + |Separator(r)| - 1);
    assert w + (a + b) == w + a + b;
  }

  lemma WordToken(t: string, i: nat, w: string, blank: string)
    requires WellEscaped(w) && OccursAt(t, i, Quoted(w)) && Stops(t, i + |Quoted(w)|)
    requires blank == "" || (blank == " " && i > 0 && t[i - 1] == ' ')
    ensures i + |Quoted(w)| <= |t|
    ensures Lex(t, i - |blank|) == [Token(Term, blank, Quoted(w))] + Lex(t, i + |Quoted(w)|)
  {
    hide Quoted, Scan, Lex, WellEscaped, OccursAt, Stops;
    ScanWord(t, i, w);
    OccursSlice(t, i, Quoted(w));
    TermAt(t, i, i + |Quoted(w)|, Quoted(w), blank);
  }

  lemma TermAt(t: string, i: nat, end: nat, name: string, blank: string)
    requires i < |t| && t[i] == '\"' && Scan(t, i) == (Term, end) && i <= end <= |t| && t[i..end] == name
    requires blank == "" || (blank == " " && i > 0 && t[i - 1] == ' ')
    ensures Lex(t, i - |blank|) == [Token(Term, blank, name)] + Lex(t, end)
  {
    hide Scan, Lex;
    LexOne(t, i, Term, end);
  }

  // ---- tokens of a tree

  /** The tokens of an operator: a negative distance is a term behind the proximity operator. */
  function OperatorTokens(op: Operator): (ts: seq<Token>)
    ensures |ts| >= 1
  {
    match op
    case JoinAnd => [Token(And, " ", "and")]
    case JoinOr => [Token(Or, " ", "or")]
    case JoinNot => [Token(Not, " ", "not")]
    case JoinProx(o, d) =>
      if d >= 0 then [Token(Prox, " ", ProxText(o, d))]
      else [Token(Prox, " ", if o then "!" else "%"), Token(Term, "", IntText(d))]
  }

  const LP := Token(Lp, "", "(")
  const RP := Token(Rp, "", ")")
  const BLANK_LP := Token(Lp, " ", "(")

  function TreeTokens(c: Cql<Query>): seq<Token>
    requires Good(c)
  {
    match c
    case Clause(q) =>
      assert Words(q.terms[0], 0, Splits(q.relation)) != [];
      LeafTokens(ClauseWords(q.terms, Splits(q.relation)), q.relation, "")
    case Boolean(op, ms, l, r) =>
      [LP] + TreeTokens(l) + ([RP] + OperatorTokens(Resolve(op, ms).value) + [BLANK_LP]) + TreeTokens(r) + [RP]
    case Sort(s) => TreeTokens(s)
  }

  lemma {:induction false} GoodIsPrintable(c: Cql<Query>)
    requires Good(c)
    ensures Printable(c)
  {
    match c
    case Clause(_) =>
    case Boolean(_, _, l, r) => GoodIsPrintable(l); GoodIsPrintable(r);
    case Sort(s) => GoodIsPrintable(s);
  }

  lemma ScanProx(t: string, i: nat, ordered: bool, distance: nat)
    requires OccursAt(t, i, ProxText(ordered, distance) + " ")
    ensures i < |t| && !IsSpace(t[i]) && Scan(t, i) == (Prox, i + |ProxText(ordered, distance)|)
  {
    var text := ProxText(ordered, distance);
    var e := i + |text|;
    OccursSplit(t, i, text, " ");
    assert t[e + 0] == " "[0];
    assert t[i + 0] == text[0];
    NoSign(distance);
    forall k | i + 1 <= k < e ensures IsDigit(t[k]) { assert t[i + (k - i)] == text[k - i]; }
    assert SkipDigits(t, i + 1) == e;
  }

  lemma NoSign(n: nat)
    ensures forall k :: 0 <= k < |IntText(n)| ==> IsDigit(IntText(n)[k])
  {
  }

  /** A negative distance is cut off the operator. */
  lemma LexNegative(t: string, i: nat, ordered: bool, distance: int)
    requires distance < 0 && OccursAt(t, i, ProxText(ordered, distance) + " ") && i > 0 && t[i - 1] == ' '
    ensures var e := i + |ProxText(ordered, distance)|;
            e <= |t| && Lex(t, i - 1) == OperatorTokens(JoinProx(ordered, distance)) + Lex(t, e)
  {
    hide Lex, IntText, Scan, OccursAt;
    var mark, number := if ordered then "!" else "%", IntText(distance);
    Regroup(mark, number, " ");
    OccursSplit(t, i, mark, number + " ");
    OccursOne(t, i, mark[0]);
    var e := i + 1 + |number|;
    ScanNumber(t, i + 1, number);
    MarkToken(t, i, mark);
    LexOne(t, i + 1, Term, e);
    TwoTokens(Token(Prox, " ", mark), Token(Term, "", number), Lex(t, e));
  }

  lemma MarkToken(t: string, i: nat, mark: string)
    requires 0 < i && i + 1 < |t| && t[i - 1] == ' ' && (t[i] == '!' || t[i] == '%') && !IsDigit(t[i + 1])
    requires mark == [t[i]]
    ensures Lex(t, i - 1) == [Token(Prox, " ", mark)] + Lex(t, i + 1)
  {
    hide Lex, Scan;
    ScanMark(t, i);
    LexOne(t, i, Prox, i + 1);
    assert t[i..i + 1] == mark;
  }

  lemma TwoTokens(a: Token, b: Token, rest: seq<Token>)
    ensures [a] + ([b] + rest) == [a, b] + rest
  {
  }

  lemma ScanMark(t: string, i: nat)
    requires i + 1 < |t| && (t[i] == '!' || t[i] == '%') && !IsDigit(t[i + 1])
    ensures Scan(t, i) == (Prox, i + 1)
  {
  }

  lemma ScanNumber(t: string, i: nat, number: string)
    requires number != "" && number[0] == '-' && OccursAt(t, i, number + " ")
    requires forall k :: 0 <= k < |number| ==> number[k] == '-' || IsDigit(number[k])
    ensures var e := i + |number|; e < |t| && t[i] == '-' && Scan(t, i) == (Term, e) && t[i..e] == number
  {
    hide TermEnd;
    OccursSplit(t, i, number, " ");
    var e := i + |number|;
    assert t[e + 0] == " "[0];
    assert forall k :: i <= k < e ==> t[k] == t[i..e][k - i];
    assert t[i] == number[0];
    TermEndPlain(t, i, e);
    assert "and"[0] != '-' && "or"[0] != '-' && "not"[0] != '-' && "andnot"[0] != '-' && "set"[0] != '-';
  }

  /** An operator behind a blank. */
  lemma LexOperator(t: string, i: nat, op: Operator)
    requires OccursAt(t, i, OperatorText(op) + " ") && i > 0 && t[i - 1] == ' '
    ensures var e := i + |OperatorText(op)|;
            e <= |t| && Lex(t, i - 1) == OperatorTokens(op) + Lex(t, e)
  {
    hide Scan, Lex, ProxText, IntText, WordKind;
    OccursSplit(t, i, OperatorText(op), " ");
    if op.JoinProx? {
      if op.distance < 0 {
        LexNegative(t, i, op.ordered, op.distance);
      } else {
        ScanProx(t, i, op.ordered, op.distance);
        LexOne(t, i, Prox, i + |OperatorText(op)|);
      }
    } else {
      ScanKeyword(t, i, OperatorText(op));
      KeywordKinds();
      LexOne(t, i, WordKind(OperatorText(op)), i + |OperatorText(op)|);
    }
  }

  lemma KeywordKinds()
    ensures WordKind("and") == And && WordKind("or") == Or && WordKind("not") == Not
  {
  }

  lemma LexParen(t: string, i: nat)
    requires i < |t| && (t[i] == '(' || t[i] == ')')
    ensures
      var p := if t[i] == '(' then Token(Lp, "", "(") else Token(Rp, "", ")");
      && Lex(t, i) == [p] + Lex(t, i + 1)
      && (i > 0 && t[i - 1] == ' ' ==> Lex(t, i - 1) == [p.(ws := " ")] + Lex(t, i + 1))
  {
    assert t[i..i + 1] == [t[i]];
    LexOne(t, i, if t[i] == '(' then Lp else Rp, i + 1);
  }

  /** The middle of a boolean node: ") op (". */
  lemma LexMiddle(t: string, i: nat, op: Operator)
    requires OccursAt(t, i, ") " + OperatorText(op) + " (")
    ensures
      var e := i + |OperatorText(op)| + 4;
      e <= |t| && Lex(t, i) == [RP] + OperatorTokens(op) + [BLANK_LP] + Lex(t, e)
  {
    hide OccursAt, OperatorText, Lex, Scan, OperatorTokens;
    var m := i + 2 + |OperatorText(op)|;
    MiddlePieces(t, i, OperatorText(op));
    LexParen(t, i);
    LexOperator(t, i + 2, op);
    LexParen(t, m + 1);
    Regroup4([RP], OperatorTokens(op), [BLANK_LP], Lex(t, m + 2));
  }

  lemma Regroup4(a: seq<Token>, b: seq<Token>, c: seq<Token>, rest: seq<Token>)
    ensures a + (b + (c + rest)) == a + b + c + rest
  {
  }

  lemma MiddlePieces(t: string, i: nat, text: string)
    requires OccursAt(t, i, ") " + text + " (")
    ensures
      var m := i + 2 + |text|;
      && m + 2 <= |t| && t[i] == ')' && t[i + 1] == ' ' && t[i + 2..m] == text
      && OccursAt(t, i + 2, text + " ") && t[m] == ' ' && t[m + 1] == '('
  {
    hide OccursAt;
    var m := i + 2 + |text|;
    OccursSplit(t, i, ") " + text, " (");
    OccursSplit(t, i, ") ", text);
    OccursSlice(t, i + 2, text);
    OccursTwo(t, i, ')', ' ');
    OccursTwo(t, m, ' ', '(');
    BlankAt(t, m);
    OccursJoin(t, i + 2, text, " ");
  }

  lemma OccursTwo(t: string, i: nat, x: char, y: char)
    requires OccursAt(t, i, [x, y])
    ensures i + 2 <= |t| && t[i] == x && t[i + 1] == y
  {
    assert t[i + 0] == [x, y][0] && t[i + 1] == [x, y][1];
  }

  lemma BlankAt(t: string, m: nat)
    requires m < |t| && t[m] == ' '
    ensures OccursAt(t, m, " ")
  {
  }

  /** The printed text of a tree has the tokens of the tree. */
  lemma {:induction false} LexTree(t: string, i: nat, c: Cql<Query>)
    requires Good(c) && Printable(c)
    requires OccursAt(t, i, Print(c)) && Closes(t, i + |Print(c)|)
    ensures i + |Print(c)| <= |t| && Lex(t, i) == TreeTokens(c) + Lex(t, i + |Print(c)|)
    decreases c
  {
    hide OccursAt, Lex, LeafText, LeafTokens, ClauseWords, OperatorText, OperatorTokens, GoodWords, PrTerms, Words,
         Resolve;
    match c
    case Clause(q) =>
      PrTermsIs(q.terms, q.relation);
      LexLeaf(t, i, ClauseWords(q.terms, Splits(q.relation)), q.relation, "");
    case Sort(s) =>
      LexTree(t, i, s);
    case Boolean(connective, ms, l, r) =>
      var op := Resolve(connective, ms).value;
      BooleanPieces(t, i, op, Print(l), Print(r));
      LexTree(t, i + 1, l);
      LexTree(t, i + 1 + |Print(l)| + |OperatorText(op)| + 4, r);
      LexBoolean(t, i, op, Print(l), Print(r), TreeTokens(l), TreeTokens(r));
  }

  /** A boolean node whose sides have the tokens `x` and `y`. */
  lemma LexBoolean(t: string, i: nat, op: Operator, l: string, r: string, x: seq<Token>, y: seq<Token>)
    requires OccursAt(t, i, "(" + l + ") " + OperatorText(op) + " (" + r + ")")
    requires i + |l| + |OperatorText(op)| + |r| + 6 <= |t|
    requires var b := i + 1 + |l|; Lex(t, i + 1) == x + Lex(t, b)
    requires var d := i + 5 + |l| + |OperatorText(op)|; Lex(t, d) == y + Lex(t, d + |r|)
    ensures Lex(t, i) == [LP] + x + ([RP] + OperatorTokens(op) + [BLANK_LP]) + y + [RP] +
                         Lex(t, i + |l| + |OperatorText(op)| + |r| + 6)
  {
    hide OccursAt, Lex, OperatorText, OperatorTokens;
    BooleanPieces(t, i, op, l, r);
    var b := i + 1 + |l|;
    var e := b + 4 + |OperatorText(op)| + |r|;
    LexParen(t, i);
    LexMiddle(t, b, op);
    LexParen(t, e);
    RegroupTree(x, [RP] + OperatorTokens(op) + [BLANK_LP], y, Lex(t, e + 1));
  }

  lemma RegroupTree(x: seq<Token>, m: seq<Token>, y: seq<Token>, z: seq<Token>)
    ensures [LP] + (x + (m + (y + ([RP] + z)))) == [LP] + x + m + y + [RP] + z
  {
  }

  lemma BooleanPieces(t: string, i: nat, op: Operator, l: string, r: string)
    requires OccursAt(t, i, "(" + l + ") " + OperatorText(op) + " (" + r + ")")
    ensures
      var middle := ") " + OperatorText(op) + " (";
      var b := i + 1 + |l|;
      var e := b + |middle| + |r|;
      && i < |t| && t[i] == '(' && OccursAt(t, i + 1, l) && b < |t| && t[b] == ')'
      && OccursAt(t, b, middle) && OccursAt(t, b + |middle|, r) && e < |t| && t[e] == ')'
  {
    hide OccursAt, OperatorText;
    var text, b := OperatorText(op), i + 1 + |l|;
    var middle := ") " + text + " (";
    var t1 := "(" + l;
    OccursSplit(t, i, t1 + ") " + text + " (" + r, ")");
    OccursSplit(t, i, t1 + ") " + text + " (", r);
    OccursSplit(t, i, t1 + ") " + text, " (");
    OccursSplit(t, i, t1 + ") ", text);
    OccursSplit(t, i, t1, ") ");
    OccursSplit(t, i, "(", l);
    OccursJoin(t, b, ") ", text);
    OccursJoin(t, b, ") " + text, " (");
    var e := b + |middle| + |r|;
    OccursSlice(t, i, "(");
    OccursSlice(t, b, ") ");
    OccursSlice(t, e, ")");
    assert t[i] == t[i..i + 1][0] && t[b] == t[b..b + 2][0] && t[e] == t[e..e + 1][0];
  }
}
