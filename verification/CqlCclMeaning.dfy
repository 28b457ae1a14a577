/** Exactly when a CQL tree survives the way through CCL, src/cql2ccl.c, src/ccltoken.c and src/cclfind.c. */
module CqlCclMeaning {
  import opened Bytes
  import opened Chars
  import opened CqlTree
  import opened CqlToCcl
  import opened CclTokens
  import opened CclFind
  import opened CqlCclTerms
  import opened CqlCclRoundTrip
  import opened CqlCclParse

  // ---- when the words are read as they are meant

  predicate Safe(ws: seq<string>)
    requires GoodWords(ws)
  {
    forall k :: 0 <= k < |ws| ==> BackslashesSafe(ws[k], false)
  }

  lemma WordRead(w: string)
    requires WellEscaped(w)
    ensures WordText(w, true) == WordText(w, false) <==> BackslashesSafe(w, false)
    ensures if BackslashesSafe(w, false) then |WordText(w, true)| == |WordText(w, false)|
            else |WordText(w, true)| > |WordText(w, false)|
  {
    AppendQuoted(w);
  }

  lemma SafeStep(ws: seq<string>)
    requires GoodWords(ws) && ws != []
    ensures Safe(ws) <==> BackslashesSafe(ws[0], false) && Safe(ws[1..])
  {
    hide WellEscaped, BackslashesSafe;
    if BackslashesSafe(ws[0], false) && Safe(ws[1..]) {
      forall k | 0 <= k < |ws| ensures BackslashesSafe(ws[k], false) {
        if k > 0 { assert ws[k] == ws[1..][k - 1]; }
      }
    }
  }

  lemma {:induction false} ChainRead(op: Op, a: Rpn, b: Rpn, ws: seq<string>)
    requires GoodWords(ws)
    ensures Chain(op, a, ws, true) == Chain(op, b, ws, false) <==> a == b && Safe(ws)
    decreases |ws|
  {
    hide WellEscaped, BackslashesSafe, WordText;
    if ws != [] {
      SafeStep(ws);
      WordRead(ws[0]);
      ChainRead(op, BoolNode(op, a, TermNode(WordText(ws[0], true))),
                BoolNode(op, b, TermNode(WordText(ws[0], false))), ws[1..]);
    }
  }

  /** A misread word makes the phrase longer. */
  lemma {:induction false} PhraseRead(ws: seq<string>, a: string, b: string)
    requires GoodWords(ws) && |a| >= |b|
    ensures |Phrase(ws, a, true)| >= |Phrase(ws, b, false)|
    ensures |a| > |b| || !Safe(ws) ==> |Phrase(ws, a, true)| > |Phrase(ws, b, false)|
    ensures a == b && Safe(ws) ==> Phrase(ws, a, true) == Phrase(ws, b, false)
    decreases |ws|
  {
    hide WellEscaped, BackslashesSafe, WordText;
    if ws != [] {
      SafeStep(ws);
      WordRead(ws[0]);
      PhraseRead(ws[1..], (if a == "" then "" else a + " ") + WordText(ws[0], true),
                 (if b == "" then "" else b + " ") + WordText(ws[0], false));
    }
  }

  lemma {:induction false} PhrasesJoined(ws: seq<string>, top: Rpn)
    requires GoodWords(ws) && ws != []
    ensures Phrases(ws, [top]).BoolNode?
    decreases |ws|
  {
    hide WellEscaped, Phrase;
    var n := if |ws| <= MAX_PHRASE then |ws| else MAX_PHRASE;
    if n < |ws| {
      PhrasesJoined(ws[n..], BoolNode(AndOp, top, TermNode(Phrase(ws[..n], "", true))));
    }
  }

  lemma PhrasesRead(ws: seq<string>)
    requires GoodWords(ws) && ws != []
    ensures Phrases(ws, []) == TermNode(Phrase(ws, "", false)) <==> |ws| <= MAX_PHRASE && Safe(ws)
  {
    hide WellEscaped, Phrase, Safe;
    PhraseRead(ws, "", "");
    if |ws| <= MAX_PHRASE {
      assert ws[..|ws|] == ws;
    } else {
      PhrasesJoined(ws[MAX_PHRASE..], TermNode(Phrase(ws[..MAX_PHRASE], "", true)));
    }
  }

  /** Every escaped backslash is safe, no phrase has more than MAX_PHRASE words, and no distance is
      negative. */
  predicate Faithful(c: Cql<Query>)
    requires Good(c)
  {
    match c
    case Clause(q) =>
      var ws := ClauseWords(q.terms, Splits(q.relation));
      Safe(ws) && (Splits(q.relation) || |ws| <= MAX_PHRASE)
    case Boolean(op, ms, l, r) =>
      (op == CqlProx ==> Resolve(op, ms).value.distance >= 0) && Faithful(l) && Faithful(r)
    case Sort(s) => Faithful(s)
  }

  lemma ClauseRead(r: Relation, ws: seq<string>)
    requires GoodWords(ws) && ws != []
    ensures ClauseMeaning(r, ws, true) == ClauseMeaning(r, ws, false) <==>
              Safe(ws) && (Splits(r) || |ws| <= MAX_PHRASE)
  {
    hide WellEscaped, Phrases, Phrase, Chain, Safe, WordText, BackslashesSafe;
    if Splits(r) {
      WordRead(ws[0]);
      SafeStep(ws);
      ChainRead(if r == AllWords then AndOp else OrOp, TermNode(WordText(ws[0], true)),
                TermNode(WordText(ws[0], false)), ws[1..]);
    } else {
      PhrasesRead(ws);
    }
  }

  lemma {:induction false} TreeRead(c: Cql<Query>)
    requires Good(c)
    ensures Distances(c) && Meaning(c, true) == Meaning(c, false) <==> Faithful(c)
  {
    hide ClauseMeaning, ClauseWords, Words, Safe, GoodWords, Resolve, ProxText;
    match c
    case Clause(q) =>
      ClauseWordsNonEmpty(q.terms, Splits(q.relation));
      ClauseRead(q.relation, ClauseWords(q.terms, Splits(q.relation)));
    case Boolean(op, ms, l, r) =>
      TreeRead(l);
      TreeRead(r);
    case Sort(s) =>
      TreeRead(s);
  }

  /** CQL to CCL to RPN, for every tree whose words hold no wildcards and no bare quotes: printing the
      tree, tokenizing the text and parsing the tokens gives back the tree with its unescaped terms at
      the leaves if and only if the tree is faithful. */
  lemma QueryPreserved(c: Cql<Query>)
    requires Good(c)
    ensures Printable(c)
    ensures FindToken(Tokenize(Print(c))) == Ok(Meaning(c, false), |TreeTokens(c)|) <==> Faithful(c)
  {
    hide FindToken, Tokenize, Print, Printable, Good, Meaning, TreeTokens, Distances, Faithful;
    QueryRead(c);
    TreeRead(c);
  }

  // ---- the value of a query

  /** What terms mean, and proximity: its operator as it is written, and whether either side holds. */
  datatype World = World(term: string -> bool, named: string -> bool, near: (string, bool, bool) -> bool)

  predicate Eval(p: Rpn, w: World) {
    match p
    case TermNode(t) => w.term(t)
    case SetNode(name) => w.named(name)
    case BoolNode(op, l, r) =>
      (match op
       case AndOp => Eval(l, w) && Eval(r, w)
       case OrOp => Eval(l, w) || Eval(r, w)
       case NotOp => Eval(l, w) && !Eval(r, w))
    case ProxNode(l, r, text) => w.near(text, Eval(l, w), Eval(r, w))
  }

  predicate EveryWord(ws: seq<string>, w: World)
    requires GoodWords(ws)
  {
    forall k :: 0 <= k < |ws| ==> w.term(Unescape(ws[k]))
  }

  predicate SomeWord(ws: seq<string>, w: World)
    requires GoodWords(ws)
  {
    exists k :: 0 <= k < |ws| && w.term(Unescape(ws[k]))
  }

  /** The value of a CQL tree: "all" asks for every word, "any" for one, other relations for the phrase; "!" is
      ordered proximity and "%" unordered, with the distance behind it unless it is 1. */
  predicate Holds(c: Cql<Query>, w: World)
    requires Good(c)
  {
    match c
    case Clause(q) =>
      var ws := ClauseWords(q.terms, q.relation == AllWords || q.relation == AnyWords);
      if q.relation == AllWords then EveryWord(ws, w)
      else if q.relation == AnyWords then SomeWord(ws, w)
      else w.term(Phrase(ws, "", false))
    case Boolean(op, ms, l, r) =>
      (match op
       case CqlAnd => Holds(l, w) && Holds(r, w)
       case CqlOr => Holds(l, w) || Holds(r, w)
       case CqlNot => Holds(l, w) && !Holds(r, w)
       case CqlProx =>
         var prox := Resolve(CqlProx, ms).value;
         var distance := if prox.distance == 1 then "" else IntText(prox.distance);
         w.near((if prox.ordered then "!" else "%") + distance, Holds(l, w), Holds(r, w)))
    case Sort(s) => Holds(s, w)
  }

  lemma NoWords(w: World)
    ensures EveryWord([], w) && !SomeWord([], w)
  {
  }

  lemma WordsStep(ws: seq<string>, w: World)
    requires GoodWords(ws) && ws != []
    ensures EveryWord(ws, w) <==> w.term(Unescape(ws[0])) && EveryWord(ws[1..], w)
    ensures SomeWord(ws, w) <==> w.term(Unescape(ws[0])) || SomeWord(ws[1..], w)
  {
    hide WellEscaped, Unescape;
    var rest := ws[1..];
    assert forall k :: 1 <= k < |ws| ==> ws[k] == rest[k - 1];
    assert forall k :: 0 <= k < |rest| ==> rest[k] == ws[k + 1];
  }

  lemma {:induction false} ChainHolds(op: Op, acc: Rpn, ws: seq<string>, w: World)
    requires GoodWords(ws)
    ensures op == AndOp ==>
              (Eval(Chain(op, acc, ws, false), w) <==> Eval(acc, w) && EveryWord(ws, w))
    ensures op == OrOp ==>
              (Eval(Chain(op, acc, ws, false), w) <==> Eval(acc, w) || SomeWord(ws, w))
    decreases |ws|
  {
    hide WellEscaped, Unescape, EveryWord, SomeWord;
    NoWords(w);
    if ws != [] {
      var rest := ws[1..];
      ChainHolds(op, BoolNode(op, acc, TermNode(WordText(ws[0], false))), rest, w);
      WordsStep(ws, w);
    }
  }

  lemma ClauseHolds(r: Relation, ws: seq<string>, w: World)
    requires r != Unsupported && GoodWords(ws) && ws != []
    ensures r == AllWords ==> (Eval(ClauseMeaning(r, ws, false), w) <==> EveryWord(ws, w))
    ensures r == AnyWords ==> (Eval(ClauseMeaning(r, ws, false), w) <==> SomeWord(ws, w))
    ensures r == Whole ==> Eval(ClauseMeaning(r, ws, false), w) == w.term(Phrase(ws, "", false))
  {
    hide WellEscaped, Unescape, Phrase, Chain, EveryWord, SomeWord;
    if r != Whole {
      var rest := ws[1..];
      ChainHolds(if r == AllWords then AndOp else OrOp, TermNode(WordText(ws[0], false)), rest, w);
      WordsStep(ws, w);
    }
  }

  /** The RPN tree has the value of the query. */
  lemma {:induction false} MeaningHolds(c: Cql<Query>, w: World)
    requires Good(c)
    ensures Eval(Meaning(c, false), w) == Holds(c, w)
  {
    hide ClauseMeaning, ClauseWords, Words, GoodWords, ProxLoop, Phrase, Unescape, IntText, EveryWord, SomeWord;
    match c
    case Clause(q) =>
      var ws := ClauseWords(q.terms, Splits(q.relation));
      ClauseWordsNonEmpty(q.terms, Splits(q.relation));
      ClauseHolds(q.relation, ws, w);
      assert ws == ClauseWords(q.terms, q.relation == AllWords || q.relation == AnyWords);
    case Boolean(op, ms, l, r) =>
      MeaningHolds(l, w);
      MeaningHolds(r, w);
      JoinedHolds(Resolve(op, ms).value, Meaning(l, false), Meaning(r, false), w);
    case Sort(s) =>
      MeaningHolds(s, w);
  }

  lemma JoinedHolds(op: Operator, p: Rpn, q: Rpn, w: World)
    ensures Eval(Joined(op, p, q), w) ==
              match op
              case JoinAnd => Eval(p, w) && Eval(q, w)
              case JoinOr => Eval(p, w) || Eval(q, w)
              case JoinNot => Eval(p, w) && !Eval(q, w)
              case JoinProx(ordered, distance) =>
                w.near((if ordered then "!" else "%") + (if distance == 1 then "" else IntText(distance)),
                       Eval(p, w), Eval(q, w))
  {
    hide IntText;
  }

  /** What the CCL parser makes of a faithful query has the value of the query. */
  lemma ValuePreserved(c: Cql<Query>, w: World)
    requires Good(c) && Faithful(c)
    ensures Printable(c)
    ensures var r := FindToken(Tokenize(Print(c))); r.Ok? && Eval(r.node, w) == Holds(c, w)
  {
    hide FindToken, Tokenize, Print, Good, Meaning, TreeTokens, Faithful, Holds, Eval;
    QueryPreserved(c);
    MeaningHolds(c, w);
  }

  /** A distance "<0" is printed as -1, which the CCL parser refuses. */
  lemma NegativeDistance()
    ensures var x := Clause(Query(Whole, ["a"]));
            var c := Boolean(CqlProx, [Modifier("distance", "<", "0")], x, x);
            Good(c) && Printable(c) && FindToken(Tokenize(Print(c))).Bad?
  {
    var x := Clause(Query(Whole, ["a"]));
    var c := Boolean(CqlProx, [Modifier("distance", "<", "0")], x, x);
    hide FindToken, Tokenize, Print, TreeTokens;
    assert Good(x) by { LetterGood(); }
    assert Resolve(CqlProx, [Modifier("distance", "<", "0")]) == Some(JoinProx(false, -1)) by { MinusOne(); }
    QueryRead(c);
  }

  lemma LetterGood()
    ensures Good(Clause(Query(Whole, ["a"])))
  {
    assert WordEnd("a", 0, false) == 1;
    assert SkipBlanks("a", 1) == 1 && "a"[0..1] == "a";
    assert Words("a", 0, false) == ["a"];
    assert ClauseWords(["a"][1..], false) == [];
    assert ClauseWords(["a"], false) == ["a"];
  }

  lemma MinusOne()
    ensures Resolve(CqlProx, [Modifier("distance", "<", "0")]) == Some(JoinProx(false, -1))
  {
    var m := Modifier("distance", "<", "0");
    assert DigitsFrom("0", 1, 10, 0) == 0;
    assert Number("0", false) == 0;
    assert !SameWord("distance", "unit") by { assert |"distance"| != |"unit"|; }
    assert ProxStep(JoinProx(false, 1), m) == Some(JoinProx(false, -1));
    assert ProxLoop(JoinProx(false, -1), []) == Some(JoinProx(false, -1));
    assert [m][1..] == [];
  }
}
