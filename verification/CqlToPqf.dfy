/** CQL trees emitted as prefix notation, src/cqltransform.c:500-580 and 593-978. Attributes are left
    out; what the attribute mapping accepts is a parameter. */
module CqlToPqf {
  import opened Bytes
  import opened Chars
  import opened CqlTree
  import opened Pqf
  import opened PqfPieces

  datatype Relation = All | Any | Other

  /** A relation modifier with a value: whether its relation and its index can be expressed, and the
      value itself. */
  datatype Valued = Valued(relationOk: bool, indexOk: bool, value: string)

  /** A result set, or a search: `inContextSet` tells whether the index resolved to a context set,
      `mapped` whether relation and structure are supported. */
  datatype Search =
    | Named(name: string)
    | Search(inContextSet: bool, mapped: bool, relation: Relation, term: string, extra: seq<string>,
        modifiers: seq<Valued>)

  /** How emit_term prints an accepted term: `cut` is the term without anchors and truncation marks;
      with `process` escapes are worked out, with `masked` wildcards are rewritten. */
  datatype Mode = Mode(cut: string, process: bool, masked: bool)

  /** What the attribute mapping makes of a term of a search; None is an error. */
  type Accepts = (Search, string) -> Option<Mode>

  // ---- words

  function NextBlank(s: string, i: nat): (j: nat)
    requires i <= |s|
    ensures i <= j <= |s| && (j < |s| ==> s[j] == ' ') && forall k :: i <= k < j ==> s[k] != ' '
    decreases |s| - i
  {
    if i < |s| && s[i] != ' ' then NextBlank(s, i + 1) else i
  }

  /** The words that emit_wordlist finds. */
  function WordList(s: string, i: nat): (ws: seq<string>)
    requires i <= |s|
    ensures |ws| >= 1
    decreases |s| - i, if i < |s| && s[i] == ' ' then 0 else 1
  {
    var j := SkipBlanks(s, i);
    var e := NextBlank(s, j);
    if e == |s| then [s[j..e]] else [s[j..e]] + WordList(s, e)
  }

  /** The maximal runs of non-blank characters. */
  function Runs(s: string, i: nat): seq<string>
    requires i <= |s|
    decreases |s| - i, if i < |s| && s[i] == ' ' then 0 else 1
  {
    var j := SkipBlanks(s, i);
    if j == |s| then [] else [s[j..NextBlank(s, j)]] + Runs(s, NextBlank(s, j))
  }

  /** The words found are the runs if the term ends in a non-blank character; otherwise an empty word
      is added at the end. */
  lemma {:induction false} WordListIsRuns(s: string, i: nat)
    requires i <= |s|
    ensures WordList(s, i) == Runs(s, i) + if i < |s| && s[|s| - 1] != ' ' then [] else [""]
    decreases |s| - i, if i < |s| && s[i] == ' ' then 0 else 1
  {
    var j := SkipBlanks(s, i);
    var e := NextBlank(s, j);
    if j == |s| {
      assert s[j..e] == "" && [] + [""] == [""];
    } else if e == |s| {
      assert s[e - 1] != ' ';
      assert Runs(s, e) == [];
    } else {
      WordListIsRuns(s, e);
      var last := if s[|s| - 1] != ' ' then [] else [""];
      assert [s[j..e]] + (Runs(s, e) + last) == ([s[j..e]] + Runs(s, e)) + last;
    }
  }

  // ---- one term

  /** What the printing loop of emit_term writes for the character at `i`. */
  function ShownAt(t: string, i: nat, masked: bool): string
    requires i < |t|
  {
    if Escapes(t, i) then
      var c := t[i + 1];
      (if c == '\"' || c == '\\' then "\\" else "") + (if masked && (c == '#' || c == '?') then "\\\\" else "") + [c]
    else if masked && t[i] == '*' then (if i < |t| - 1 && IsDigit(t[i + 1]) then "?\\\\" else "?")
    else if masked && t[i] == '?' then "#"
    else (if t[i] == '\"' then "\\" else "") + (if masked && t[i] == '#' then "\\\\" else "") + [t[i]]
  }

  /** A backslash in front of another character. */
  predicate Escapes(t: string, i: nat)
    requires i < |t|
  {
    t[i] == '\\' && i < |t| - 1
  }

  /** What that loop writes between the quotes, from position `i` on. */
  function Shown(t: string, i: nat, masked: bool): string
    requires i <= |t|
    decreases |t| - i
  {
    if i == |t| then "" else ShownAt(t, i, masked) + Shown(t, if Escapes(t, i) then i + 2 else i + 1, masked)
  }

  /** The operand as prefix notation shows it. */
  function Body(m: Mode): string {
    if m.process then Shown(m.cut, 0, m.masked) else m.cut
  }

  /** The printing loop of emit_term. */
  method EmitTerm(m: Mode) returns (out: string)
    ensures out == Body(m)
  {
    hide Shown;
    out := "";
    if m.process {
      var t, i := m.cut, 0;
      assert "" + Shown(t, 0, m.masked) == Shown(t, 0, m.masked);
      while i < |t|
        invariant 0 <= i <= |t| && out + Shown(t, i, m.masked) == Shown(t, 0, m.masked)
        decreases |t| - i
      {
        ShownStep(t, i, m.masked);
        var add, next := TermChar(t, i, m.masked);
        ghost var rest := Shown(t, next, m.masked);
        assert out + (add + rest) == (out + add) + rest;
        out := out + add;
        i := next;
      }
      ShownEnd(t, m.masked);
      assert out + "" == out;
    } else {
      for i := 0 to |m.cut|
        invariant out == m.cut[..i]
      {
        out := out + [m.cut[i]];
      }
    }
  }

  lemma ShownEnd(t: string, masked: bool)
    ensures Shown(t, |t|, masked) == ""
  {
  }

  lemma ShownStep(t: string, i: nat, masked: bool)
    requires i < |t|
    ensures Shown(t, i, masked) == ShownAt(t, i, masked) + Shown(t, if Escapes(t, i) then i + 2 else i + 1, masked)
  {
  }

  /** One turn of that loop. */
  method TermChar(t: string, i: nat, masked: bool) returns (add: string, next: nat)
    requires i < |t|
    ensures add == ShownAt(t, i, masked) && next == if Escapes(t, i) then i + 2 else i + 1
  {
    add, next := "", i + 1;
    if t[i] == '\\' && i < |t| - 1 {
      var c := t[i + 1];
      if c == '\"' || c == '\\' {
        add := add + "\\";
      }
      if masked && (c == '#' || c == '?') {
        add := add + "\\\\";
      }
      add := add + [c];
      next := i + 2;
    } else if masked && t[i] == '*' {
      add := "?";
      if i < |t| - 1 && IsDigit(t[i + 1]) {
        add := add + "\\\\";
      }
    } else if masked && t[i] == '?' {
      add := "#";
    } else {
      if t[i] == '\"' {
        add := add + "\\";
      }
      if masked && t[i] == '#' {
        add := add + "\\\\";
      }
      add := add + [t[i]];
    }
  }

  // ---- emission

  /** Pieces written so far, and whether an error is reported. */
  datatype Emitted = Emitted(pieces: seq<Piece>, error: bool)

  /** The operands of a search. */
  function SearchWords(q: Search): (ws: seq<string>)
    requires q.Search?
    ensures |ws| >= 1
  {
    if q.relation == Other then [q.term] + q.extra else WordList(q.term, 0)
  }

  function SearchOp(q: Search): (k: Kind)
    requires q.Search?
    ensures k == And || k == Or
  {
    if q.relation == Any then Or else And
  }

  /** emit_terms and emit_wordlist: an operator in front of every operand but the last; emission stops
      at the first term that is not accepted. */
  function EmitWords(q: Search, ws: seq<string>, op: Kind, accepts: Accepts): Emitted
    requires |ws| >= 1
    decreases |ws|
  {
    var m := accepts(q, ws[0]);
    if |ws| == 1 then (if m.Some? then Emitted([Quoted(Body(m.value))], false) else Emitted([], true))
    else if m.None? then Emitted([Op(op)], true)
    else
      var rest := EmitWords(q, ws[1..], op, accepts);
      Emitted([Op(op), Quoted(Body(m.value))] + rest.pieces, rest.error)
  }

  /** An operator with its parameters. */
  function ProxPieces(ps: seq<string>): seq<Piece>
    requires |ps| == 6
  {
    [Op(Prox), Plain(ps[0]), Plain(ps[1]), Plain(ps[2]), Plain(ps[3]), Plain(ps[4]), Plain(ps[5])]
  }

  /** The proximity that joins a clause with the value of a modifier. */
  const MODIFIER_PROX := ["0", "0", "0", "0", "k", "8"]

  /** The operators in front of a clause with valued modifiers; an unsupported relation is an error. */
  function EmitModifierOps(ms: seq<Valued>): Emitted {
    if ms == [] then Emitted([], false)
    else if !ms[0].relationOk then Emitted([], true)
    else
      var rest := EmitModifierOps(ms[1..]);
      Emitted(ProxPieces(MODIFIER_PROX) + rest.pieces, rest.error)
  }

  /** The modifier values behind the clause, printed without quotes. */
  function EmitModifierValues(ms: seq<Valued>): Emitted {
    if ms == [] then Emitted([], false)
    else if !ms[0].indexOk then Emitted([], true)
    else
      var rest := EmitModifierValues(ms[1..]);
      Emitted([Plain(ms[0].value)] + rest.pieces, rest.error)
  }

  /** The state of the modifier loop of cql_pr_prox. */
  datatype ProxState = ProxState(distance: int, ordered: bool, relation: nat, unit: nat)

  function ProxRelation(r: string): nat {
    if r == "=" then 3 else if r == ">" then 5 else if r == "<" then 1
    else if r == ">=" then 4 else if r == "<=" then 2 else if r == "<>" then 6 else 0
  }

  /** One modifier of a proximity node; `units` gives the number of a unit, 0 if it has none. */
  function ProxStep(st: ProxState, m: Modifier, units: string -> nat): Option<ProxState> {
    if m.name == "distance" then
      if ProxRelation(m.relation) == 0 then None
      else Some(st.(distance := Number(m.term, true), relation := ProxRelation(m.relation)))
    else if m.name == "ordered" then Some(st.(ordered := true))
    else if m.name == "unordered" then Some(st.(ordered := false))
    else if m.name == "unit" then (if units(m.term) == 0 then None else Some(st.(unit := units(m.term))))
    else None
  }

  function ProxLoop(st: ProxState, ms: seq<Modifier>, units: string -> nat): Option<ProxState>
    decreases |ms|
  {
    if ms == [] then Some(st)
    else
      match ProxStep(st, ms[0], units)
      case None => None
      case Some(next) => ProxLoop(next, ms[1..], units)
  }

  const PROX_START := ProxState(-1, false, 2, 2)

  /** The distance that is printed: without one, 1 for words and 0 for other units. */
  function Distance(st: ProxState): int {
    if st.distance == -1 then (if st.unit == 2 then 1 else 0) else st.distance
  }

  function Parameters(st: ProxState): (ps: seq<string>)
    ensures |ps| == 6
  {
    ["0", IntText(Distance(st)), if st.ordered then "1" else "0", IntText(st.relation), "k", IntText(st.unit)]
  }

  function ConnectiveKind(op: Connective): (k: Kind)
    ensures IsOperator(k)
  {
    match op
    case CqlAnd => And
    case CqlOr => Or
    case CqlNot => Not
    case CqlProx => Prox
  }

  /** The operator of a boolean node; modifiers of other operators than proximity are an error. */
  function EmitOperator(op: Connective, ms: seq<Modifier>, units: string -> nat): Emitted {
    if op == CqlProx then
      match ProxLoop(PROX_START, ms, units)
      case None => Emitted([Op(Prox)], true)
      case Some(st) => Emitted(ProxPieces(Parameters(st)), false)
    else Emitted([Op(ConnectiveKind(op))], ms != [])
  }

  /** emit_node on a search. The error of the terms is overwritten by the outcome of the valued
      modifiers. */
  function EmitSearch(q: Search, accepts: Accepts): Emitted {
    match q
    case Named(name) => Emitted([Op(Set), SetName(name)], false)
    case Search(inContextSet, mapped, _, _, _, ms) =>
      var ops := EmitModifierOps(ms);
      if !inContextSet then Emitted([], true)
      else if ops.error then ops
      else if !mapped then Emitted(ops.pieces, true)
      else
        var words := EmitWords(q, SearchWords(q), SearchOp(q), accepts);
        if ms == [] then Emitted(ops.pieces + words.pieces, words.error)
        else
          var values := EmitModifierValues(ms);
          Emitted(ops.pieces + words.pieces + values.pieces, values.error)
  }

  /** emit_node. */
  function Emit(c: Cql<Search>, accepts: Accepts, units: string -> nat): Emitted {
    match c
    case Clause(q) => EmitSearch(q, accepts)
    case Boolean(op, ms, l, r) =>
      var head := EmitOperator(op, ms, units);
      if head.error then head
      else
        var left := Emit(l, accepts, units);
        if left.error then Emitted(head.pieces + left.pieces, true)
        else
          var right := Emit(r, accepts, units);
          Emitted(head.pieces + left.pieces + right.pieces, right.error)
    case Sort(s) => Emit(s, accepts, units)
  }

  // ---- the emitting loops

  /** What is written and reported once `out` is written and `rest` follows. */
  function After(out: seq<Piece>, rest: Emitted): Emitted {
    Emitted(out + rest.pieces, rest.error)
  }

  /** What is written and reported once `out` is written and the words `ws` remain. */
  ghost function Rest(out: seq<Piece>, q: Search, ws: seq<string>, op: Kind, accepts: Accepts): Emitted {
    if ws == [] then Emitted(out, false) else After(out, EmitWords(q, ws, op, accepts))
  }

  lemma RestStart(q: Search, ws: seq<string>, op: Kind, accepts: Accepts)
    requires ws != []
    ensures Rest([], q, ws, op, accepts) == EmitWords(q, ws, op, accepts)
  {
    var pieces := EmitWords(q, ws, op, accepts).pieces;
    assert [] + pieces == pieces;
  }

  lemma RestDone(out: seq<Piece>, q: Search, op: Kind, accepts: Accepts)
    ensures Rest(out, q, [], op, accepts) == Emitted(out, false)
  {
  }

  lemma RestStep(out: seq<Piece>, q: Search, ws: seq<string>, op: Kind, accepts: Accepts)
    requires ws != []
    ensures Rest(out, q, ws, op, accepts) ==
              var before := if |ws| > 1 then out + [Op(op)] else out;
              match accepts(q, ws[0])
              case None => Emitted(before, true)
              case Some(m) => Rest(before + [Quoted(Body(m))], q, ws[1..], op, accepts)
  {
    var m := accepts(q, ws[0]);
    if |ws| > 1 && m.Some? {
      var rest := EmitWords(q, ws[1..], op, accepts);
      assert out + ([Op(op), Quoted(Body(m.value))] + rest.pieces) ==
             out + [Op(op)] + [Quoted(Body(m.value))] + rest.pieces;
    }
  }

  /** emit_term: nothing is written for a term that is not accepted. */
  method PutTerm(out: seq<Piece>, q: Search, term: string, accepts: Accepts) returns (more: seq<Piece>, error: bool)
    ensures error == accepts(q, term).None?
    ensures more == if error then out else out + [Quoted(Body(accepts(q, term).value))]
  {
    var m := accepts(q, term);
    if m.None? {
      return out, true;
    }
    var body := EmitTerm(m.value);
    return out + [Quoted(body)], false;
  }

  /** emit_terms. */
  method EmitTerms(q: Search, term: string, extra: seq<string>, op: Kind, accepts: Accepts)
    returns (out: seq<Piece>, error: bool)
    ensures Emitted(out, error) == EmitWords(q, [term] + extra, op, accepts)
  {
    hide EmitWords, Rest;
    ghost var all := EmitWords(q, [term] + extra, op, accepts);
    RestStart(q, [term] + extra, op, accepts);
    RestStep([], q, [term] + extra, op, accepts);
    assert ([term] + extra)[1..] == extra && extra[0..] == extra;
    out := [];
    if extra != [] {
      out := out + [Op(op)];
    }
    out, error := PutTerm(out, q, term, accepts);
    var ne := 0;
    while !error && ne < |extra|
      invariant ne <= |extra|
      invariant error ==> all == Emitted(out, true)
      invariant !error ==> all == Rest(out, q, extra[ne..], op, accepts)
    {
      RestStep(out, q, extra[ne..], op, accepts);
      assert extra[ne..][1..] == extra[ne + 1..];
      if ne + 1 < |extra| {
        out := out + [Op(op)];
      }
      out, error := PutTerm(out, q, extra[ne], accepts);
      ne := ne + 1;
    }
    assert ne == |extra| ==> extra[ne..] == [];
    RestDone(out, q, op, accepts);
  }

  /** The words still to emit: one held back, and those from `cp` on. */
  ghost function Pending(term: string, cp: Option<nat>, last: Option<string>): seq<string>
    requires cp.Some? ==> cp.value <= |term|
  {
    (if last.Some? then [last.value] else []) + if cp.Some? then WordList(term, cp.value) else []
  }

  lemma WordListStep(term: string, i: nat)
    requires i <= |term|
    ensures var j := SkipBlanks(term, i);
            var e := NextBlank(term, j);
            WordList(term, i) == [term[j..e]] + if e < |term| then WordList(term, e) else []
  {
  }

  /** emit_wordlist: a word is written once it is known whether another follows. */
  method EmitWordlist(q: Search, term: string, op: Kind, accepts: Accepts)
    returns (out: seq<Piece>, error: bool)
    ensures Emitted(out, error) == EmitWords(q, WordList(term, 0), op, accepts)
  {
    hide EmitWords, Rest, WordList;
    RestStart(q, WordList(term, 0), op, accepts);
    out, error := [], false;
    var cp: Option<nat> := Some(0);
    var last: Option<string> := None;
    ghost var all := EmitWords(q, WordList(term, 0), op, accepts);
    assert Pending(term, cp, last) == WordList(term, 0);
    while !error && cp.Some?
      invariant cp.Some? ==> cp.value <= |term| && (cp.value > 0 ==> cp.value < |term| && term[cp.value] == ' ')
      invariant cp.None? ==> last.Some?
      invariant error ==> all == Emitted(out, true)
      invariant !error ==> all == Rest(out, q, Pending(term, cp, last), op, accepts)
      decreases if cp.Some? then |term| - cp.value + 1 else 0,
                if cp.Some? && cp.value < |term| && term[cp.value] == ' ' then 0 else 1, !error
    {
      ghost var words := Pending(term, cp, last);
      RestStep(out, q, words, op, accepts);
      WordListStep(term, cp.value);
      var cp0 := SkipBlanks(term, cp.value);
      var cp1 := NextBlank(term, cp0);
      assert last.Some? ==> words[1..] == WordList(term, cp.value);
      if last.Some? {
        out := out + [Op(op)];
        out, error := PutTerm(out, q, last.value, accepts);
      }
      last := Some(term[cp0..cp1]);
      cp := if cp1 < |term| then Some(cp1) else None;
      assert !error ==> Pending(term, cp, last) == if |words| > |Pending(term, cp, last)| then words[1..] else words;
    }
    if !error {
      assert Pending(term, cp, last) == [last.value];
      RestStep(out, q, [last.value], op, accepts);
      out, error := PutTerm(out, q, last.value, accepts);
      RestDone(out, q, op, accepts);
    }
  }

  /** The first modifier loop of emit_node. */
  method EmitOps(ms: seq<Valued>) returns (out: seq<Piece>, error: bool)
    ensures Emitted(out, error) == EmitModifierOps(ms)
  {
    hide ProxPieces;
    out := [];
    var mod := 0;
    while mod < |ms|
      invariant mod <= |ms|
      invariant EmitModifierOps(ms) == After(out, EmitModifierOps(ms[mod..]))
    {
      assert ms[mod..][1..] == ms[mod + 1..];
      if !ms[mod].relationOk {
        return out, true;
      }
      out := out + ProxPieces(MODIFIER_PROX);
      mod := mod + 1;
    }
    error := false;
  }

  /** The second modifier loop of emit_node: it overwrites the error `r` of the terms. */
  method EmitValues(ms: seq<Valued>, r: bool) returns (out: seq<Piece>, error: bool)
    ensures Emitted(out, error) == if ms == [] then Emitted([], r) else EmitModifierValues(ms)
  {
    out, error := [], r;
    var mod := 0;
    ghost var all := EmitModifierValues(ms);
    assert ms[0..] == ms && [] + all.pieces == all.pieces;
    while mod < |ms|
      invariant mod <= |ms|
      invariant mod == 0 ==> out == [] && error == r
      invariant mod > 0 ==> !error
      invariant all == After(out, EmitModifierValues(ms[mod..]))
    {
      ValuesStep(out, ms, mod);
      error := !ms[mod].indexOk;
      if error {
        return;
      }
      out := out + [Plain(ms[mod].value)];
      mod := mod + 1;
    }
    assert ms[mod..] == [];
  }

  lemma ValuesStep(out: seq<Piece>, ms: seq<Valued>, k: nat)
    requires k < |ms|
    ensures After(out, EmitModifierValues(ms[k..])) ==
              if !ms[k].indexOk then Emitted(out, true)
              else After(out + [Plain(ms[k].value)], EmitModifierValues(ms[k + 1..]))
  {
    assert ms[k..][1..] == ms[k + 1..];
    assert out + [] == out;
    var rest := EmitModifierValues(ms[k + 1..]).pieces;
    assert out + ([Plain(ms[k].value)] + rest) == out + [Plain(ms[k].value)] + rest;
  }

  /** cql_pr_prox. */
  method PrProx(ms: seq<Modifier>, units: string -> nat) returns (ps: Option<seq<string>>)
    ensures var st := ProxLoop(PROX_START, ms, units);
            ps == if st.None? then None else Some(Parameters(st.value))
  {
    var st := PROX_START;
    var k := 0;
    while k < |ms|
      invariant k <= |ms| && ProxLoop(PROX_START, ms, units) == ProxLoop(st, ms[k..], units)
    {
      assert ms[k..][0] == ms[k] && ms[k..][1..] == ms[k + 1..];
      var next := ProxStep(st, ms[k], units);
      if next.None? {
        return None;
      }
      st := next.value;
      k := k + 1;
    }
    ps := Some(Parameters(st));
  }

  /** emit_node on a search. */
  method EmitSt(q: Search, accepts: Accepts) returns (out: seq<Piece>, error: bool)
    ensures Emitted(out, error) == EmitSearch(q, accepts)
  {
    hide EmitWords, EmitModifierValues, WordList;
    out, error := [], false;
    var more: seq<Piece>;
    match q
    case Named(name) =>
      out := [Op(Set), SetName(name)];
    case Search(inContextSet, mapped, relation, term, extra, ms) =>
      if !inContextSet {
        return [], true;
      }
      out, error := EmitOps(ms);
      if error {
        return;
      }
      if !mapped {
        return out, true;
      }
      if relation == All {
        more, error := EmitWordlist(q, term, And, accepts);
      } else if relation == Any {
        more, error := EmitWordlist(q, term, Or, accepts);
      } else {
        more, error := EmitTerms(q, term, extra, And, accepts);
      }
      out := out + more;
      more, error := EmitValues(ms, error);
      out := out + more;
  }

  /** emit_node. */
  method EmitNode(c: Cql<Search>, accepts: Accepts, units: string -> nat) returns (out: seq<Piece>, error: bool)
    ensures Emitted(out, error) == Emit(c, accepts, units)
    decreases c
  {
    hide EmitSearch, ProxLoop;
    error := false;
    match c
    case Clause(q) =>
      out, error := EmitSt(q, accepts);
    case Boolean(op, ms, l, r) =>
      var more: seq<Piece>;
      if op == CqlProx {
        var ps := PrProx(ms, units);
        if ps.None? {
          return [Op(Prox)], true;
        }
        out := ProxPieces(ps.value);
      } else {
        out := [Op(ConnectiveKind(op))];
        if ms != [] {
          return out, true;
        }
      }
      more, error := EmitNode(l, accepts, units);
      out := out + more;
      if error {
        return;
      }
      more, error := EmitNode(r, accepts, units);
      out := out + more;
    case Sort(s) =>
      out, error := EmitNode(s, accepts, units);
  }
}
