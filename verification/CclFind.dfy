/** The CCL parser of src/cclfind.c for an empty bibset: no qualifiers, default truncation and mask
    characters. Positions are indices into the token list, whose last token is Eol. */
module CclFind {
  import opened CclTokens

  datatype Op = AndOp | OrOp | NotOp

  datatype Rpn =
    | TermNode(text: string)
    | SetNode(name: string)
    | BoolNode(op: Op, left: Rpn, right: Rpn)
    | ProxNode(left: Rpn, right: Rpn, how: string)

  datatype Error =
    | TermExpected | RpExpected | SetnameExpected | OpExpected | BadRp | UnknownQual | Truncation

  datatype Parsed = Ok(node: Rpn, next: nat) | Bad(error: Error)

  /** The most tokens that make up one term. */
  const MAX_PHRASE := 200

  function KindAt(ts: seq<Token>, i: nat): Kind {
    if i < |ts| then ts[i].kind else Eol
  }

  predicate IsTermKind(k: Kind) {
    k == Term || k == Comma || k == Eq || k == Rel || k == Set
  }

  // ---- terms

  /** append_term from position `j`: quotes are dropped, a character after a backslash is kept, and an
      unquoted truncation or mask character is an error because no qualifier allows it. */
  function Append(s: string, j: nat, quoted: bool): (r: (bool, string))
    requires j <= |s|
    decreases |s| - j
  {
    if j == |s| then (true, "")
    else if j > 0 && s[j - 1] == '\\' then Put(s[j], Append(s, j + 1, quoted))
    else if s[j] == '\"' then Append(s, j + 1, !quoted)
    else if !quoted && (s[j] == '?' || s[j] == '#') then (false, "")
    else if s[j] != '\\' then Put(s[j], Append(s, j + 1, quoted))
    else Append(s, j + 1, quoted)
  }

  function Put(c: char, r: (bool, string)): (bool, string) {
    (r.0, [c] + r.1)
  }

  /** The text of `n` tokens as one term: white space is kept between them once there is text. */
  function TermText(ts: seq<Token>, i: nat, n: nat, text: string): (r: (bool, string))
    requires i + n <= |ts|
    decreases n
  {
    if n == 0 then (true, text)
    else
      var t := Append(ts[i].name, 0, false);
      if !t.0 then (false, "")
      else TermText(ts, i + 1, n - 1, (if text == "" then "" else text + ts[i].ws) + t.1)
  }

  /** Number of tokens from `i` on that may be part of a term, at most `max`. */
  function Run(ts: seq<Token>, i: nat, max: nat): (n: nat)
    ensures n <= max && i + n <= (if i <= |ts| then |ts| else i)
    ensures forall k :: i <= k < i + n ==> IsTermKind(KindAt(ts, k))
    ensures n < max ==> !IsTermKind(KindAt(ts, i + n))
    decreases max
  {
    if max > 0 && i < |ts| && IsTermKind(ts[i].kind) then 1 + Run(ts, i + 1, max - 1) else 0
  }

  /** search_term_x with several tokens: terms of up to MAX_PHRASE tokens, joined by AND. */
  function SearchTermX(ts: seq<Token>, i: nat, top: seq<Rpn>): (r: Parsed)
    requires i <= |ts| && |top| <= 1
    ensures r.Ok? ==> i <= r.next <= |ts| && (top == [] ==> i < r.next)
    decreases |ts| - i
  {
    var n := Run(ts, i, MAX_PHRASE);
    if n == 0 then (if top == [] then Bad(TermExpected) else Ok(top[0], i))
    else
      var t := TermText(ts, i, n, "");
      if !t.0 then Bad(Truncation)
      else SearchTermX(ts, i + n, [if top == [] then TermNode(t.1) else BoolNode(AndOp, top[0], TermNode(t.1))])
  }

  lemma SearchTermXStep(ts: seq<Token>, i: nat, top: seq<Rpn>)
    requires i <= |ts| && |top| <= 1
    ensures Run(ts, i, MAX_PHRASE) == 0 ==>
              SearchTermX(ts, i, top) == if top == [] then Bad(TermExpected) else Ok(top[0], i)
    ensures var n := Run(ts, i, MAX_PHRASE);
            n > 0 ==>
              var t := TermText(ts, i, n, "");
              var node := if top == [] then TermNode(t.1) else BoolNode(AndOp, top[0], TermNode(t.1));
              SearchTermX(ts, i, top) == if t.0 then SearchTermX(ts, i + n, [node]) else Bad(Truncation)
  {
    hide Run, TermText;
  }

  // ---- grammar

  /** The look-ahead for qualifiers: terms separated by commas and followed by a relation. */
  predicate QualifierAhead(ts: seq<Token>, i: nat)
    decreases |ts| - i
  {
    i < |ts| && ts[i].kind == Term
    && (KindAt(ts, i + 1) == Rel || KindAt(ts, i + 1) == Eq
        || (KindAt(ts, i + 1) == Comma && QualifierAhead(ts, i + 2)))
  }

  /** search_terms2. */
  function SearchTerms2(ts: seq<Token>, i: nat): (r: Parsed)
    requires i <= |ts|
    ensures r.Ok? ==> i < r.next <= |ts|
    decreases |ts| - i, 1
  {
    if KindAt(ts, i) == Lp then
      match FindSpec(ts, i + 1)
      case Bad(e) => Bad(e)
      case Ok(p, j) => if KindAt(ts, j) != Rp then Bad(RpExpected) else Ok(p, j + 1)
    else SearchTermX(ts, i, [])
  }

  /** The proximity loop of search_terms. */
  function SearchTermsRest(ts: seq<Token>, i: nat, p: Rpn): (r: Parsed)
    requires i <= |ts|
    ensures r.Ok? ==> i <= r.next <= |ts|
    decreases |ts| - i, 2
  {
    if KindAt(ts, i) == Prox then
      match SearchTerms2(ts, i + 1)
      case Bad(e) => Bad(e)
      case Ok(p2, j) => SearchTermsRest(ts, j, ProxNode(p, p2, ts[i].name))
    else if IsTermKind(KindAt(ts, i)) then
      match SearchTerms2(ts, i)
      case Bad(e) => Bad(e)
      case Ok(p2, j) => SearchTermsRest(ts, j, ProxNode(p, p2, ""))
    else Ok(p, i)
  }

  /** search_terms. */
  function SearchTerms(ts: seq<Token>, i: nat): (r: Parsed)
    requires i <= |ts|
    ensures r.Ok? ==> i < r.next <= |ts|
    decreases |ts| - i, 3
  {
    match SearchTerms2(ts, i)
    case Bad(e) => Bad(e)
    case Ok(p, j) => SearchTermsRest(ts, j, p)
  }

  /** search_elements; every qualifier is unknown. */
  function SearchElements(ts: seq<Token>, i: nat): (r: Parsed)
    requires i <= |ts|
    ensures r.Ok? ==> i < r.next <= |ts|
    decreases |ts| - i, 4
  {
    if KindAt(ts, i) == Set then
      var j := if KindAt(ts, i + 1) == Eq then i + 2 else i + 1;
      if KindAt(ts, j) != Term then Bad(SetnameExpected) else Ok(SetNode(ts[j].name), j + 1)
    else if QualifierAhead(ts, i) then Bad(UnknownQual)
    else SearchTerms(ts, i)
  }

  function OpOf(k: Kind): (r: seq<Op>)
    ensures |r| <= 1
  {
    match k
    case And => [AndOp]
    case Or => [OrOp]
    case Not => [NotOp]
    case _ => []
  }

  /** The operator loop of find_spec. */
  function FindSpecRest(ts: seq<Token>, i: nat, p: Rpn): (r: Parsed)
    requires i <= |ts|
    ensures r.Ok? ==> i <= r.next <= |ts|
    decreases |ts| - i, 5
  {
    var op := OpOf(KindAt(ts, i));
    if op == [] then Ok(p, i)
    else
      match SearchElements(ts, i + 1)
      case Bad(e) => Bad(e)
      case Ok(p2, j) => FindSpecRest(ts, j, BoolNode(op[0], p, p2))
  }

  /** find_spec. */
  function FindSpec(ts: seq<Token>, i: nat): (r: Parsed)
    requires i <= |ts|
    ensures r.Ok? ==> i < r.next <= |ts|
    decreases |ts| - i, 6
  {
    match SearchElements(ts, i)
    case Bad(e) => Bad(e)
    case Ok(p, j) => FindSpecRest(ts, j, p)
  }

  /** ccl_parser_find_token. */
  function FindToken(ts: seq<Token>): (r: Parsed) {
    match FindSpec(ts, 0)
    case Bad(e) => Bad(e)
    case Ok(p, j) =>
      if KindAt(ts, j) == Eol then Ok(p, j)
      else if KindAt(ts, j) == Rp then Bad(BadRp)
      else Bad(OpExpected)
  }

  // ---- the parser object

  /** struct ccl_parser: the token list, the current token and the error code. */
  class Parser {
    const ts: seq<Token>
    var look: nat
    var error: seq<Error>

    ghost predicate Valid()
      reads this
    {
      look <= |ts|
    }

    constructor (tokens: seq<Token>)
      ensures Valid() && ts == tokens && look == 0 && error == []
    {
      ts, look, error := tokens, 0, [];
    }

    /** What a parsing routine does: a node and the token after it, or an error code. */
    ghost predicate Follows(p: seq<Rpn>, r: Parsed)
      reads this
    {
      match r
      case Ok(node, next) => p == [node] && look == next
      case Bad(e) => p == [] && error == [e]
    }

    /** append_term. */
    method AppendTerm(s: string) returns (ok: bool, dst: string)
      ensures ok == Append(s, 0, false).0 && (ok ==> dst == Append(s, 0, false).1)
    {
      ok, dst := true, "";
      var j, quoted := 0, false;
      while j < |s|
        invariant 0 <= j <= |s|
        invariant Append(s, 0, false).0 == Append(s, j, quoted).0
        invariant Append(s, 0, false).0 ==> Append(s, 0, false).1 == dst + Append(s, j, quoted).1
      {
        ghost var rest := Append(s, j + 1, quoted).1;
        assert dst + ([s[j]] + rest) == (dst + [s[j]]) + rest;
        if j > 0 && s[j - 1] == '\\' {
          dst := dst + [s[j]];
        } else if s[j] == '\"' {
          quoted := !quoted;
        } else if !quoted && (s[j] == '?' || s[j] == '#') {
          return false, dst;
        } else if s[j] != '\\' {
          dst := dst + [s[j]];
        }
        j := j + 1;
      }
      assert dst + "" == dst;
    }

    /** The token loop of ccl_term_one_use. */
    method OneTerm(n: nat) returns (ok: bool, text: string)
      requires look + n <= |ts|
      ensures (ok, if ok then text else "") == TermText(ts, look, n, "")
    {
      hide Append;
      ok, text := true, "";
      var k := 0;
      while k < n
        invariant 0 <= k <= n && TermText(ts, look + k, n - k, text) == TermText(ts, look, n, "")
      {
        var good, t := AppendTerm(ts[look + k].name);
        if !good {
          return false, text;
        }
        text := (if text == "" then "" else text + ts[look + k].ws) + t;
        k := k + 1;
      }
    }

    /** search_term_x. */
    method SearchTermXLoop() returns (p: seq<Rpn>)
      requires Valid()
      modifies this
      ensures Valid() && Follows(p, old(SearchTermX(ts, look, [])))
    {
      hide Run, TermText, SearchTermX;
      p := [];
      while true
        invariant Valid() && |p| <= 1
        invariant SearchTermX(ts, look, p) == old(SearchTermX(ts, look, []))
        decreases |ts| - look
      {
        var n := CountTerms();
        SearchTermXStep(ts, look, p);
        if n == 0 {
          break;
        }
        var ok, text := OneTerm(n);
        look := look + n;
        if !ok {
          error := [Truncation];
          return [];
        }
        p := [if p == [] then TermNode(text) else BoolNode(AndOp, p[0], TermNode(text))];
      }
      if p == [] {
        error := [TermExpected];
      }
    }

    method CountTerms() returns (n: nat)
      ensures n == Run(ts, look, MAX_PHRASE)
    {
      n := 0;
      while n < MAX_PHRASE && IsTermKind(KindAt(ts, look + n))
        invariant n <= MAX_PHRASE && n + Run(ts, look + n, MAX_PHRASE - n) == Run(ts, look, MAX_PHRASE)
      {
        n := n + 1;
      }
    }

    /** search_terms2. */
    method ParseTerms2() returns (p: seq<Rpn>)
      requires Valid()
      modifies this
      ensures Valid() && Follows(p, old(SearchTerms2(ts, look)))
      decreases |ts| - look, 1
    {
      hide FindSpec, SearchTermX;
      if KindAt(ts, look) == Lp {
        look := look + 1;
        p := ParseSpec();
        if p == [] {
          return;
        }
        if KindAt(ts, look) != Rp {
          error := [RpExpected];
          return [];
        }
        look := look + 1;
      } else {
        p := SearchTermXLoop();
      }
    }

    /** search_terms. */
    method ParseTerms() returns (p: seq<Rpn>)
      requires Valid()
      modifies this
      ensures Valid() && Follows(p, old(SearchTerms(ts, look)))
      decreases |ts| - look, 3
    {
      hide SearchTerms2;
      ghost var start := look;
      p := ParseTerms2();
      if p == [] {
        return;
      }
      while true
        invariant Valid() && |p| == 1 && start < look
        invariant SearchTermsRest(ts, look, p[0]) == old(SearchTerms(ts, look))
        decreases |ts| - look
      {
        var how := "";
        if KindAt(ts, look) == Prox {
          how := ts[look].name;
          look := look + 1;
        } else if !IsTermKind(KindAt(ts, look)) {
          break;
        }
        var p2 := ParseTerms2();
        if p2 == [] {
          return [];
        }
        p := [ProxNode(p[0], p2[0], how)];
      }
    }

    /** search_elements. */
    method ParseElements() returns (p: seq<Rpn>)
      requires Valid()
      modifies this
      ensures Valid() && Follows(p, old(SearchElements(ts, look)))
      decreases |ts| - look, 4
    {
      hide SearchTerms, QualifierAhead;
      if KindAt(ts, look) == Set {
        look := look + 1;
        if KindAt(ts, look) == Eq {
          look := look + 1;
        }
        if KindAt(ts, look) != Term {
          error := [SetnameExpected];
          return [];
        }
        p := [SetNode(ts[look].name)];
        look := look + 1;
        return;
      }
      var qualified := QualifierLoop();
      if qualified {
        error := [UnknownQual];
        return [];
      }
      p := ParseTerms();
    }

    method QualifierLoop() returns (found: bool)
      ensures found == QualifierAhead(ts, look)
    {
      var la := look;
      while KindAt(ts, la) == Term
        invariant QualifierAhead(ts, la) == QualifierAhead(ts, look)
        decreases |ts| - la
      {
        la := la + 1;
        if KindAt(ts, la) == Rel || KindAt(ts, la) == Eq {
          return true;
        }
        if KindAt(ts, la) != Comma {
          return false;
        }
        la := la + 1;
      }
      return false;
    }

    /** find_spec. */
    method ParseSpec() returns (p: seq<Rpn>)
      requires Valid()
      modifies this
      ensures Valid() && Follows(p, old(FindSpec(ts, look)))
      decreases |ts| - look, 6
    {
      hide SearchElements;
      ghost var start := look;
      p := ParseElements();
      if p == [] {
        return;
      }
      while OpOf(KindAt(ts, look)) != []
        invariant Valid() && |p| == 1 && start < look
        invariant FindSpecRest(ts, look, p[0]) == old(FindSpec(ts, look))
        decreases |ts| - look
      {
        var op := OpOf(KindAt(ts, look))[0];
        look := look + 1;
        var p2 := ParseElements();
        if p2 == [] {
          return [];
        }
        p := [BoolNode(op, p[0], p2[0])];
      }
    }

    /** ccl_parser_find_token. */
    method FindTokenList() returns (p: seq<Rpn>)
      requires Valid() && look == 0
      modifies this
      ensures Follows(p, FindToken(ts))
    {
      hide FindSpec;
      p := ParseSpec();
      if p != [] && KindAt(ts, look) != Eol {
        error := [if KindAt(ts, look) == Rp then BadRp else OpExpected];
        p := [];
      }
    }
  }
}
