/** Which tokens an expression of prefix notation is read from, src/pquery.c:377-691. */
module PqfReading {
  import opened Bytes
  import opened Chars
  import opened Pqf
  import opened PqfPieces

  // ---- expressions and the tokens they are read from

  /** What a token has to be: of a kind, a word of some text, or anything with that text. */
  datatype Pattern = OfKind(kind: Kind) | OfText(text: string) | AnyText(text: string)

  predicate Fits(t: Token, p: Pattern) {
    match p
    case OfKind(k) => t.kind == k
    case OfText(w) => t == Token(Term, w)
    case AnyText(w) => t.text == w
  }

  function PatternOf(p: Piece): Pattern {
    match p
    case Op(k) => OfKind(k)
    case NoOp(k) => OfKind(k)
    case SetName(n) => AnyText(n)
    case Plain(w) => OfText(w)
    case Quoted(w) => OfText(w)
    case NoWord(w) => OfText(w)
  }

  function PatternsOf(ps: seq<Piece>): (qs: seq<Pattern>)
    ensures |qs| == |ps|
  {
    seq(|ps|, k requires 0 <= k < |ps| => PatternOf(ps[k]))
  }

  function OperatorPatterns(op: Operator): (qs: seq<Pattern>)
    ensures |qs| >= 1
  {
    match op
    case PqfAnd => [OfKind(And)]
    case PqfOr => [OfKind(Or)]
    case PqfNot => [OfKind(Not)]
    case PqfProx(ps) => [OfKind(Prox)] + seq(|ps|, k requires 0 <= k < |ps| => OfText(ps[k]))
  }

  function Patterns(e: Expr): (qs: seq<Pattern>)
    ensures |qs| >= 1
  {
    match e
    case Leaf(Word(t)) => [OfText(t)]
    case Leaf(ResultSet(n)) => [OfKind(Set), AnyText(n)]
    case Node(op, l, r) => OperatorPatterns(op) + Patterns(l) + Patterns(r)
  }

  /** Every proximity operator has parameters that can be read. */
  predicate ProxOk(e: Expr) {
    match e
    case Leaf(_) => true
    case Node(op, l, r) => (op.PqfProx? ==> ProxReadable(op.parameters)) && ProxOk(l) && ProxOk(r)
  }

  predicate FitAt(ts: seq<Token>, i: nat, qs: seq<Pattern>) {
    i + |qs| <= |ts| && forall k :: 0 <= k < |qs| ==> Fits(ts[i + k], qs[k])
  }

  lemma FitJoin(ts: seq<Token>, i: nat, a: seq<Pattern>, b: seq<Pattern>)
    ensures FitAt(ts, i, a + b) <==> FitAt(ts, i, a) && FitAt(ts, i + |a|, b)
  {
    hide Fits;
    if FitAt(ts, i, a + b) {
      forall k | 0 <= k < |a| ensures Fits(ts[i + k], a[k]) { assert Fits(ts[i + k], (a + b)[k]); }
      forall k | 0 <= k < |b| ensures Fits(ts[i + |a| + k], b[k]) {
        assert Fits(ts[i + (|a| + k)], (a + b)[|a| + k]);
      }
    }
    if FitAt(ts, i, a) && FitAt(ts, i + |a|, b) {
      forall k | 0 <= k < |a + b| ensures Fits(ts[i + k], (a + b)[k]) {
        if k >= |a| { assert Fits(ts[i + |a| + (k - |a|)], b[k - |a|]); }
      }
    }
  }

  /** Only tokens that begin with '@' are not words. */
  predicate Lexical(ts: seq<Token>) {
    forall t <- ts :: t.kind != Term ==> t.text != "" && t.text[0] == '@'
  }

  lemma {:induction false} LexLexical(s: string, i: nat)
    requires i <= |s|
    ensures Lexical(Lex(s, i))
    decreases |s| - i
  {
    hide Scan, WordKind;
    var j := SkipBlanks(s, i);
    if j < |s| {
      LexLexical(s, OneToken(s, j).next);
    }
  }

  /** The operator of a node is read exactly from tokens that fit it. */
  lemma OperatorRead(ts: seq<Token>, i: nat, op: Operator)
    requires i < |ts| && Lexical(ts)
    ensures OperatorAt(ts, i) == Some((op, i + |OperatorPatterns(op)|)) <==>
              FitAt(ts, i, OperatorPatterns(op)) && (op.PqfProx? ==> ProxReadable(op.parameters))
  {
    hide ProxReadable, Texts;
    var qs := OperatorPatterns(op);
    if op.PqfProx? {
      ProxRead(ts, i, op.parameters);
    } else if FitAt(ts, i, qs) {
      assert Fits(ts[i + 0], qs[0]);
    }
  }

  lemma ProxRead(ts: seq<Token>, i: nat, ps: seq<string>)
    requires i < |ts| && Lexical(ts)
    ensures OperatorAt(ts, i) == Some((PqfProx(ps), i + 1 + |ps|)) <==>
              FitAt(ts, i, OperatorPatterns(PqfProx(ps))) && ProxReadable(ps)
  {
    hide Lexical;
    if FitAt(ts, i, OperatorPatterns(PqfProx(ps))) && ProxReadable(ps) {
      FitProx(ts, i, ps);
    }
    if OperatorAt(ts, i) == Some((PqfProx(ps), i + 1 + |ps|)) {
      ProxFit(ts, i, ps);
    }
  }

  lemma FitProx(ts: seq<Token>, i: nat, ps: seq<string>)
    requires FitAt(ts, i, OperatorPatterns(PqfProx(ps))) && |ps| == 6
    ensures i + 7 <= |ts| && ts[i].kind == Prox && Texts(ts, i + 1, 6) == ps
  {
    var qs := OperatorPatterns(PqfProx(ps));
    assert Fits(ts[i + 0], qs[0]);
    forall k | 0 <= k < 6 ensures ts[i + 1 + k].text == ps[k] { assert Fits(ts[i + (1 + k)], qs[1 + k]); }
  }

  lemma ProxFit(ts: seq<Token>, i: nat, ps: seq<string>)
    requires i + 7 <= |ts| && Lexical(ts) && ts[i].kind == Prox && ps == Texts(ts, i + 1, 6) && ProxReadable(ps)
    ensures FitAt(ts, i, OperatorPatterns(PqfProx(ps)))
  {
    var qs := OperatorPatterns(PqfProx(ps));
    forall k | 0 <= k < |qs| ensures Fits(ts[i + k], qs[k]) {
      if k > 0 {
        assert ts[i + 1 + (k - 1)].text == ps[k - 1] && ts[i + k] in ts;
      }
    }
  }

  lemma {:induction false} StructureComplete(ts: seq<Token>, i: nat, e: Expr)
    requires Lexical(ts) && FitAt(ts, i, Patterns(e)) && ProxOk(e)
    ensures StructureAt(ts, i) == Structure(e, i + |Patterns(e)|)
    decreases e
  {
    hide FitAt, OperatorPatterns, ProxReadable, Lexical, StructureAt, OperatorAt;
    match e
    case Leaf(Word(t)) => WordFits(ts, i, t);
    case Leaf(ResultSet(n)) => SetFits(ts, i, n);
    case Node(op, l, r) =>
      var j := i + |OperatorPatterns(op)|;
      NodeFits(ts, i, op, Patterns(l), Patterns(r));
      StructureComplete(ts, j, l);
      StructureComplete(ts, j + |Patterns(l)|, r);
      NodeRead(ts, i, op, j, l, r);
  }

  /** The tokens of a node: its operator, and those of its sides. */
  lemma NodeFits(ts: seq<Token>, i: nat, op: Operator, ls: seq<Pattern>, rs: seq<Pattern>)
    requires Lexical(ts) && FitAt(ts, i, OperatorPatterns(op) + ls + rs)
    requires op.PqfProx? ==> ProxReadable(op.parameters)
    ensures var j := i + |OperatorPatterns(op)|;
            && i < |ts| && ts[i].kind != Term && ts[i].kind != Set && OperatorAt(ts, i) == Some((op, j))
            && FitAt(ts, j, ls) && FitAt(ts, j + |ls|, rs)
  {
    hide FitAt, OperatorPatterns, ProxReadable, Lexical, OperatorAt;
    var os := OperatorPatterns(op);
    FitJoin(ts, i, os + ls, rs);
    FitJoin(ts, i, os, ls);
    NotAWord(ts, i, op);
    OperatorRead(ts, i, op);
  }

  lemma NodeRead(ts: seq<Token>, i: nat, op: Operator, j: nat, l: Expr, r: Expr)
    requires i < |ts| && ts[i].kind != Term && ts[i].kind != Set && OperatorAt(ts, i) == Some((op, j))
    requires StructureAt(ts, j).Structure? && StructureAt(ts, j).expr == l
    requires var k := StructureAt(ts, j).next; StructureAt(ts, k).Structure? && StructureAt(ts, k).expr == r
    ensures StructureAt(ts, i) == Structure(Node(op, l, r), StructureAt(ts, StructureAt(ts, j).next).next)
  {
    hide OperatorAt;
  }

  lemma NotAWord(ts: seq<Token>, i: nat, op: Operator)
    requires FitAt(ts, i, OperatorPatterns(op))
    ensures i < |ts| && ts[i].kind != Term && ts[i].kind != Set
  {
    assert Fits(ts[i + 0], OperatorPatterns(op)[0]);
  }

  lemma WordFits(ts: seq<Token>, i: nat, t: string)
    requires FitAt(ts, i, [OfText(t)])
    ensures StructureAt(ts, i) == Structure(Leaf(Word(t)), i + 1)
  {
    assert Fits(ts[i + 0], [OfText(t)][0]);
  }

  lemma SetFits(ts: seq<Token>, i: nat, n: string)
    requires FitAt(ts, i, [OfKind(Set), AnyText(n)])
    ensures StructureAt(ts, i) == Structure(Leaf(ResultSet(n)), i + 2)
  {
    var qs := [OfKind(Set), AnyText(n)];
    assert Fits(ts[i + 0], qs[0]) && Fits(ts[i + 1], qs[1]);
  }

  lemma {:induction false} StructureSound(ts: seq<Token>, i: nat)
    requires Lexical(ts) && StructureAt(ts, i).Structure?
    ensures var p := StructureAt(ts, i);
            ProxOk(p.expr) && FitAt(ts, i, Patterns(p.expr)) && p.next == i + |Patterns(p.expr)|
    decreases |ts| - i
  {
    hide OperatorAt, OperatorPatterns, ProxReadable, FitAt, Lexical;
    var p := StructureAt(ts, i);
    if ts[i].kind == Term || ts[i].kind == Set {
      LeafSound(ts, i);
    } else {
      var (op, j) := OperatorAt(ts, i).value;
      var l := StructureAt(ts, j);
      StructureSound(ts, j);
      StructureSound(ts, l.next);
      NodeSound(ts, i, Patterns(l.expr), Patterns(StructureAt(ts, l.next).expr));
    }
  }

  lemma NodeSound(ts: seq<Token>, i: nat, ls: seq<Pattern>, rs: seq<Pattern>)
    requires i < |ts| && Lexical(ts) && OperatorAt(ts, i).Some?
    requires var j := OperatorAt(ts, i).value.1; FitAt(ts, j, ls) && FitAt(ts, j + |ls|, rs)
    ensures var (op, j) := OperatorAt(ts, i).value;
            && j == i + |OperatorPatterns(op)| && (op.PqfProx? ==> ProxReadable(op.parameters))
            && FitAt(ts, i, OperatorPatterns(op) + ls + rs)
  {
    hide OperatorAt, OperatorPatterns, ProxReadable, FitAt, Lexical;
    var op := OperatorAt(ts, i).value.0;
    OperatorSound(ts, i);
    OperatorRead(ts, i, op);
    FitJoin(ts, i, OperatorPatterns(op), ls);
    FitJoin(ts, i, OperatorPatterns(op) + ls, rs);
  }

  lemma LeafSound(ts: seq<Token>, i: nat)
    requires i < |ts| && (ts[i].kind == Term || (ts[i].kind == Set && i + 1 < |ts|))
    ensures StructureAt(ts, i).Structure?
    ensures var p := StructureAt(ts, i);
            ProxOk(p.expr) && FitAt(ts, i, Patterns(p.expr)) && p.next == i + |Patterns(p.expr)|
  {
  }

  lemma OperatorSound(ts: seq<Token>, i: nat)
    requires i < |ts| && OperatorAt(ts, i).Some?
    ensures var (op, j) := OperatorAt(ts, i).value; j == i + |OperatorPatterns(op)|
  {
  }

  /** A text reads as an expression if and only if its tokens fit the expression from beginning to end. */
  lemma ReadIsFit(s: string, e: Expr)
    ensures Read(s) == Some(e) <==> |Lex(s, 0)| == |Patterns(e)| && FitAt(Lex(s, 0), 0, Patterns(e)) && ProxOk(e)
  {
    hide FitAt, Patterns, ProxOk, StructureAt, Lexical, Lex;
    var ts := Lex(s, 0);
    LexLexical(s, 0);
    if |ts| == |Patterns(e)| && FitAt(ts, 0, Patterns(e)) && ProxOk(e) {
      StructureComplete(ts, 0, e);
    }
    if StructureAt(ts, 0).Structure? {
      StructureSound(ts, 0);
    }
  }

  /** A text reads as an expression if and only if its tokens match pieces that stand for it. */
  lemma ReadIsMatch(s: string, e: Expr, ps: seq<Piece>)
    requires PatternsOf(ps) == Patterns(e)
    ensures Read(s) == Some(e) <==> MatchAll(Lex(s, 0), ps) && ProxOk(e)
  {
    hide Read, Lex, Patterns, ProxOk;
    ReadIsFit(s, e);
    var ts, qs := Lex(s, 0), PatternsOf(ps);
    forall k, t: Token | 0 <= k < |ps| ensures Matches(t, ps[k]) <==> Fits(t, qs[k]) {
    }
    if FitAt(ts, 0, qs) && |ts| == |qs| {
      forall k | 0 <= k < |ps| ensures Matches(ts[k], ps[k]) { assert Fits(ts[0 + k], qs[k]); }
    }
    if MatchAll(ts, ps) {
      forall k | 0 <= k < |qs| ensures Fits(ts[0 + k], qs[k]) { assert Matches(ts[k], ps[k]); }
    }
  }
}
