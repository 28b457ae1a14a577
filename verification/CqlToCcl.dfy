/** CQL trees printed as CCL, src/cql2ccl.c, for terms without an index. */
module CqlToCcl {
  import opened Bytes
  import opened Chars
  import opened CqlTree
  import opened Pieces

  /** What node_st makes of a relation: print the term as it is, or its words joined by an operator. */
  datatype Relation = Whole | AllWords | AnyWords | Unsupported

  /** A search clause with its term and extra terms. */
  datatype Query = Query(relation: Relation, terms: seq<string>)

  /** The operator that node_bool prints. */
  datatype Operator = JoinAnd | JoinOr | JoinNot | JoinProx(ordered: bool, distance: int)

  function Quote(open: bool): string {
    if open then "\"" else ""
  }

  /** What pr_term prints for the character at `i`, where it goes on, and whether a quote is open. */
  datatype Step = Step(text: string, next: nat, quoted: bool)

  function PrStep(s: string, i: nat, quoted: bool): (r: Step)
    requires i < |s|
    ensures i < r.next <= |s|
  {
    if s[i] == '\\' && i + 1 < |s| then
      var c := s[i + 1];
      Step(Quote(!quoted) + (if c == '\"' || c == '\\' then "\\" else "") + [c], i + 2, true)
    else if s[i] == '*' then Step(Quote(quoted) + "?", i + 1, false)
    else if s[i] == '?' then Step(Quote(quoted) + "#", i + 1, false)
    else Step(Quote(!quoted) + [s[i]], i + 1, true)
  }

  /** pr_term from position `i`: the text and where it stops. */
  function PrTermFrom(s: string, i: nat, stopAtSpace: bool, quoted: bool): (r: (string, nat))
    requires i <= |s|
    ensures i <= r.1 <= |s|
    decreases |s| - i
  {
    if i == |s| || (s[i] == ' ' && stopAtSpace) then (Quote(quoted), i)
    else
      var step := PrStep(s, i, quoted);
      var rest := PrTermFrom(s, step.next, stopAtSpace, step.quoted);
      (step.text + rest.0, rest.1)
  }

  /** pr_term: an empty term is printed as an empty pair of quotes. */
  function PrTerm(s: string, i: nat, stopAtSpace: bool): (r: (string, nat))
    requires i <= |s|
    ensures i <= r.1 <= |s|
  {
    var r := PrTermFrom(s, i, stopAtSpace, false);
    (if r.1 == i then r.0 + "\"\"" else r.0, r.1)
  }

  /** What goes between the words of a clause. */
  function Separator(r: Relation): string {
    match r
    case AllWords => " and "
    case AnyWords => " or "
    case _ => " "
  }

  predicate Splits(r: Relation) {
    r == AllWords || r == AnyWords
  }

  /** A piece is progress: either text was printed or a blank is skipped. */
  lemma PieceProgress(s: string, i: nat, split: bool)
    requires i < |s|
    ensures i < SkipBlanks(s, PrTerm(s, i, split).1)
  {
  }

  /** The loop of node_st over one term. */
  function PrWords(s: string, i: nat, r: Relation): string
    requires i <= |s|
    decreases |s| - i
  {
    var p := PrTerm(s, i, Splits(r));
    var j := SkipBlanks(s, p.1);
    if j == |s| then p.0
    else
      assert i < j by { if i < |s| { PieceProgress(s, i, Splits(r)); } }
      p.0 + Separator(r) + PrWords(s, j, r)
  }

  /** The loop of node_st over the term and its extra terms. */
  function PrTerms(terms: seq<string>, r: Relation): string {
    if terms == [] then ""
    else if |terms| == 1 then PrWords(terms[0], 0, r)
    else PrWords(terms[0], 0, r) + Separator(r) + PrTerms(terms[1..], r)
  }

  /** One modifier of a proximity node: unit, distance and order; anything else is an error. */
  function ProxStep(op: Operator, m: Modifier): (r: Option<Operator>)
    requires op.JoinProx?
    ensures r.Some? ==> r.value.JoinProx?
  {
    if SameWord(m.name, "unit") then (if SameWord(m.term, "word") then Some(op) else None)
    else if SameWord(m.name, "distance") then
      if m.relation == "<=" then Some(op.(distance := Number(m.term, false)))
      else if m.relation == "<" then Some(op.(distance := Number(m.term, false) - 1))
      else None
    else if SameWord(m.name, "unordered") then Some(op.(ordered := false))
    else if SameWord(m.name, "ordered") then Some(op.(ordered := true))
    else None
  }

  function ProxLoop(op: Operator, ms: seq<Modifier>): (r: Option<Operator>)
    requires op.JoinProx?
    ensures r.Some? ==> r.value.JoinProx?
    decreases |ms|
  {
    if ms == [] then Some(op)
    else
      match ProxStep(op, ms[0])
      case None => None
      case Some(next) => ProxLoop(next, ms[1..])
  }

  /** The operator of a boolean node; modifiers count for proximity only. */
  function Resolve(op: Connective, ms: seq<Modifier>): Option<Operator> {
    match op
    case CqlAnd => Some(JoinAnd)
    case CqlOr => Some(JoinOr)
    case CqlNot => Some(JoinNot)
    case CqlProx => ProxLoop(JoinProx(false, 1), ms)
  }

  function ProxText(ordered: bool, distance: int): string {
    (if ordered then "!" else "%") + (if distance == 1 then "" else IntText(distance))
  }

  function OperatorText(op: Operator): string {
    match op
    case JoinAnd => "and"
    case JoinOr => "or"
    case JoinNot => "not"
    case JoinProx(ordered, distance) => ProxText(ordered, distance)
  }

  /** cql_to_ccl_r succeeds unless a relation is unsupported, a clause has no term, or a proximity has a
      modifier that CCL cannot express. */
  predicate Printable(c: Cql<Query>) {
    match c
    case Clause(q) => q.relation != Unsupported && q.terms != []
    case Boolean(op, ms, l, r) => Printable(l) && Resolve(op, ms).Some? && Printable(r)
    case Sort(s) => Printable(s)
  }

  /** cql_to_ccl_r. */
  function Print(c: Cql<Query>): string
    requires Printable(c)
  {
    match c
    case Clause(q) => PrTerms(q.terms, q.relation)
    case Boolean(op, ms, l, r) =>
      "(" + Print(l) + ") " + OperatorText(Resolve(op, ms).value) + " (" + Print(r) + ")"
    case Sort(s) => Print(s)
  }

  // ---- the C routines

  /** The branches of pr_term on one character. */
  method PrChar(s: string, cp: nat, quoted: bool) returns (add: string, next: nat, quoted': bool)
    requires cp < |s|
    ensures Step(add, next, quoted') == PrStep(s, cp, quoted)
  {
    next := cp + 1;
    if s[cp] == '\\' && cp + 1 < |s| {
      var c := s[cp + 1];
      add := Quote(!quoted) + (if c == '\"' || c == '\\' then "\\" else "") + [c];
      quoted' := true;
      next := cp + 2;
    } else if s[cp] == '*' {
      add := Quote(quoted) + "?";
      quoted' := false;
    } else if s[cp] == '?' {
      add := Quote(quoted) + "#";
      quoted' := false;
    } else {
      add := Quote(!quoted) + [s[cp]];
      quoted' := true;
    }
  }

  lemma PrTermFromStep(s: string, i: nat, stopAtSpace: bool, quoted: bool)
    requires i <= |s|
    ensures i == |s| || (s[i] == ' ' && stopAtSpace) ==>
              PrTermFrom(s, i, stopAtSpace, quoted) == (Quote(quoted), i)
    ensures !(i == |s| || (s[i] == ' ' && stopAtSpace)) ==>
              var step := PrStep(s, i, quoted);
              var rest := PrTermFrom(s, step.next, stopAtSpace, step.quoted);
              PrTermFrom(s, i, stopAtSpace, quoted) == (step.text + rest.0, rest.1)
  {
    hide PrStep;
  }

  /** pr_term. */
  method PrTermLoop(s: string, start: nat, stopAtSpace: bool) returns (out: string, cp: nat)
    requires start <= |s|
    ensures (out, cp) == PrTerm(s, start, stopAtSpace)
  {
    hide PrStep, PrTermFrom;
    out, cp := "", start;
    var quoted := false;
    while cp < |s|
      invariant start <= cp <= |s|
      invariant PrTermFrom(s, start, stopAtSpace, false).1 == PrTermFrom(s, cp, stopAtSpace, quoted).1
      invariant PrTermFrom(s, start, stopAtSpace, false).0 == out + PrTermFrom(s, cp, stopAtSpace, quoted).0
      decreases |s| - cp
    {
      PrTermFromStep(s, cp, stopAtSpace, quoted);
      if s[cp] == ' ' && stopAtSpace {
        break;
      }
      var add;
      add, cp, quoted := PrChar(s, cp, quoted);
      Regroup(out, add, PrTermFrom(s, cp, stopAtSpace, quoted).0);
      out := out + add;
    }
    PrTermFromStep(s, cp, stopAtSpace, quoted);
    out := out + Quote(quoted);
    if cp == start {
      out := out + "\"\"";
    }
  }

  /** node_st. */
  method NodeSt(r: Relation, terms: seq<string>) returns (out: string)
    requires terms != []
    ensures out == PrTerms(terms, r)
  {
    hide PrTerms, PrWords, Separator;
    out := "";
    var k := 0;
    assert terms[0..] == terms && "" + PrTerms(terms, r) == PrTerms(terms, r);
    while k < |terms|
      invariant 0 <= k <= |terms|
      invariant k < |terms| ==> out + PrTerms(terms[k..], r) == PrTerms(terms, r)
      invariant k == |terms| ==> out == PrTerms(terms, r)
    {
      var words := WordLoop(terms[k], r);
      ghost var rest := terms[k..];
      assert rest[0] == terms[k] && rest[1..] == terms[k + 1..];
      PrTermsStep(rest, r);
      if k + 1 < |terms| {
        Regroup(out, words + Separator(r), PrTerms(rest[1..], r));
        out := out + (words + Separator(r));
      } else {
        out := out + words;
      }
      k := k + 1;
    }
  }

  lemma PrTermsStep(terms: seq<string>, r: Relation)
    requires terms != []
    ensures |terms| == 1 ==> PrTerms(terms, r) == PrWords(terms[0], 0, r)
    ensures |terms| > 1 ==> PrTerms(terms, r) == (PrWords(terms[0], 0, r) + Separator(r)) + PrTerms(terms[1..], r)
  {
    hide PrWords, Separator;
  }

  method WordLoop(s: string, r: Relation) returns (out: string)
    ensures out == PrWords(s, 0, r)
  {
    hide PrTerm, PrWords, SkipBlanks, Separator;
    out := "";
    var cp := 0;
    assert "" + PrWords(s, 0, r) == PrWords(s, 0, r);
    while true
      invariant 0 <= cp <= |s| && out + PrWords(s, cp, r) == PrWords(s, 0, r)
      decreases |s| - cp
    {
      var text, stop := PrTermLoop(s, cp, Splits(r));
      PrWordsStep(s, cp, r);
      cp := BlankLoop(s, stop);
      if cp == |s| {
        out := out + text;
        break;
      }
      ghost var next := text + Separator(r);
      Regroup(out, next, PrWords(s, cp, r));
      out := out + (text + Separator(r));
    }
  }

  lemma PrWordsStep(s: string, i: nat, r: Relation)
    requires i <= |s|
    ensures
      var (text, stop) := PrTerm(s, i, Splits(r));
      var j := SkipBlanks(s, stop);
      if j == |s| then PrWords(s, i, r) == text
      else i < j && PrWords(s, i, r) == text + Separator(r) + PrWords(s, j, r)
  {
    if i < |s| { PieceProgress(s, i, Splits(r)); }
  }

  method BlankLoop(s: string, start: nat) returns (cp: nat)
    requires start <= |s|
    ensures cp == SkipBlanks(s, start)
  {
    cp := start;
    while cp < |s| && s[cp] == ' '
      invariant start <= cp <= |s| && SkipBlanks(s, cp) == SkipBlanks(s, start)
    {
      cp := cp + 1;
    }
  }

  /** The modifier loop of node_bool. */
  method ProxModifiers(ms: seq<Modifier>) returns (op: Option<Operator>)
    ensures op == Resolve(CqlProx, ms)
  {
    hide ProxStep;
    var ordered, distance := false, 1;
    var n := 0;
    while n < |ms|
      invariant n <= |ms|
      invariant Resolve(CqlProx, ms) == ProxLoop(JoinProx(ordered, distance), ms[n..])
    {
      assert ms[n..][0] == ms[n] && ms[n..][1..] == ms[n + 1..];
      var ok;
      ok, ordered, distance := OneModifier(ms[n], ordered, distance);
      if !ok {
        return None;
      }
      n := n + 1;
    }
    op := Some(JoinProx(ordered, distance));
  }

  method OneModifier(m: Modifier, ordered: bool, distance: int) returns (ok: bool, ordered': bool, distance': int)
    ensures ProxStep(JoinProx(ordered, distance), m) == if ok then Some(JoinProx(ordered', distance')) else None
  {
    ok, ordered', distance' := true, ordered, distance;
    if SameWord(m.name, "unit") {
      ok := SameWord(m.term, "word");
    } else if SameWord(m.name, "distance") {
      if m.relation == "<=" {
        distance' := Number(m.term, false);
      } else if m.relation == "<" {
        distance' := Number(m.term, false) - 1;
      } else {
        ok := false;
      }
    } else if SameWord(m.name, "unordered") {
      ordered' := false;
    } else if SameWord(m.name, "ordered") {
      ordered' := true;
    } else {
      ok := false;
    }
  }

  /** cql_to_ccl_r with node_bool: false for the return code -1. */
  method CqlToCclR(c: Cql<Query>) returns (ok: bool, out: string)
    ensures ok == Printable(c) && (ok ==> out == Print(c))
    decreases c
  {
    hide PrTerms, OperatorText, ProxLoop;
    match c
    case Clause(q) =>
      ok, out := q.relation != Unsupported && q.terms != [], "";
      if ok {
        out := NodeSt(q.relation, q.terms);
      }
    case Boolean(op, ms, l, r) =>
      out := "(";
      var text;
      ok, text := CqlToCclR(l);
      if !ok {
        return;
      }
      out := out + text + ") ";
      var how := if op == CqlAnd then Some(JoinAnd) else if op == CqlOr then Some(JoinOr) else Some(JoinNot);
      if op == CqlProx {
        how := ProxModifiers(ms);
        if how.None? {
          return false, out;
        }
      }
      out := out + OperatorText(how.value) + " (";
      ok, text := CqlToCclR(r);
      out := out + text + ")";
    case Sort(s) =>
      ok, out := CqlToCclR(s);
  }
}
