/** The reader of prefix notation, src/pquery.c:51-118 and 377-691: tokens, and expressions over them.
    Attributes, attribute sets and term types are left out; a text that has them is not read. */
module Pqf {
  import opened Bytes
  import opened Chars

  // ---- tokens

  datatype Kind = And | Or | Not | Attr | Set | AttrSet | Prox | TermType | Term

  datatype Token = Token(kind: Kind, text: string)

  /** The character that ends a token which begins with `c`. */
  function Separator(c: char): char {
    if c == '{' then '}' else if c == '\"' then '\"' else ' '
  }

  /** The end of a token's text: the separator, or the end; a backslash hides the next character. */
  function Scan(s: string, i: nat, sep: char): (j: nat)
    requires i <= |s|
    ensures i <= j <= |s| && (j < |s| ==> s[j] == sep)
    decreases |s| - i
  {
    if i == |s| || s[i] == sep then i
    else if s[i] == '\\' && i + 1 < |s| then Scan(s, i + 2, sep)
    else Scan(s, i + 1, sep)
  }

  /** compare_term behind the escape character: it does not look at the last letter. */
  predicate Spells(text: string, word: string)
    requires |word| > 0
  {
    |text| == |word| + 1 && text[1..|word|] == word[..|word| - 1]
  }

  function WordKind(text: string): Kind {
    if Spells(text, "and") then And
    else if Spells(text, "or") then Or
    else if Spells(text, "not") then Not
    else if Spells(text, "attr") then Attr
    else if Spells(text, "set") then Set
    else if Spells(text, "attrset") then AttrSet
    else if Spells(text, "prox") then Prox
    else if Spells(text, "term") then TermType
    else Term
  }

  datatype Lexed = Lexed(token: Token, next: nat)

  /** '@' and a digit begin an attribute, inside quotes as well. */
  predicate AttrStart(s: string, i: nat) {
    i + 1 < |s| && s[i] == '@' && IsDigit(s[i + 1])
  }

  /** query_token at its first character. */
  function OneToken(s: string, i: nat): (r: Lexed)
    requires i < |s| && s[i] != ' '
    ensures i < r.next <= |s|
  {
    var sep := Separator(s[i]);
    var b := if sep == ' ' then i else i + 1;
    if AttrStart(s, b) then Lexed(Token(Attr, "@"), b + 1)
    else
      var e := Scan(s, b, sep);
      var text := s[b..e];
      var kind := if sep == ' ' && text != "" && text[0] == '@' then WordKind(text) else Term;
      Lexed(Token(kind, text), if e < |s| then e + 1 else e)
  }

  /** The tokens from `i` on. */
  function Lex(s: string, i: nat): (ts: seq<Token>)
    requires i <= |s|
    decreases |s| - i
  {
    var j := SkipBlanks(s, i);
    if j == |s| then []
    else
      var r := OneToken(s, j);
      [r.token] + Lex(s, r.next)
  }

  /** query_token: None at the end. */
  method QueryToken(s: string, start: nat) returns (r: Option<Token>, next: nat)
    requires start <= |s|
    ensures next <= |s|
    ensures Lex(s, start) == (if r.None? then [] else [r.value] + Lex(s, next))
  {
    hide OneToken;
    var q := start;
    while q < |s| && s[q] == ' '
      invariant start <= q <= |s| && SkipBlanks(s, q) == SkipBlanks(s, start)
    {
      q := q + 1;
    }
    if q == |s| {
      return None, q;
    }
    var token;
    token, next := TokenLoop(s, q);
    r := Some(token);
  }

  /** query_token behind its leading blanks. */
  method TokenLoop(s: string, first: nat) returns (token: Token, next: nat)
    requires first < |s| && s[first] != ' '
    ensures Lexed(token, next) == OneToken(s, first)
  {
    hide WordKind;
    var sep, q := Separator(s[first]), first;
    if sep != ' ' {
      q := q + 1;
    }
    if AttrStart(s, q) {
      return Token(Attr, "@"), q + 1;
    }
    var lex := q;
    q := ScanLoop(s, lex, sep);
    var text := s[lex..q];
    next := if q < |s| then q + 1 else q;
    token := Token(if sep == ' ' && text != "" && text[0] == '@' then WordKind(text) else Term, text);
  }

  method ScanLoop(s: string, start: nat, sep: char) returns (q: nat)
    requires start <= |s|
    ensures q == Scan(s, start, sep)
  {
    q := start;
    while q < |s| && s[q] != sep
      invariant start <= q <= |s| && Scan(s, q, sep) == Scan(s, start, sep)
      decreases |s| - q
    {
      if s[q] == '\\' && q + 1 < |s| {
        q := q + 1;
      }
      q := q + 1;
    }
  }

  // ---- expressions

  /** Proximity keeps its six parameters as they are written. */
  datatype Operator = PqfAnd | PqfOr | PqfNot | PqfProx(parameters: seq<string>)

  datatype Operand = Word(text: string) | ResultSet(name: string)

  datatype Expr = Leaf(operand: Operand) | Node(op: Operator, left: Expr, right: Expr)

  predicate StartsWithDigit(t: string) { t != "" && IsDigit(t[0]) }

  /** rpn_proximity: exclusion, distance, order, relation, kind of unit and unit. */
  predicate ProxReadable(ps: seq<string>) {
    && |ps| == 6
    && ps[0] != "" && ps[0][0] in {'0', '1', 'v', 'n'} && StartsWithDigit(ps[1])
    && ps[2] != "" && ps[2][0] in {'0', '1'} && StartsWithDigit(ps[3])
    && ps[4] != "" && ps[4][0] in {'k', 'p'} && StartsWithDigit(ps[5])
  }

  function Texts(ts: seq<Token>, i: nat, n: nat): seq<string>
    requires i + n <= |ts|
  {
    seq(n, k requires 0 <= k < n => ts[i + k].text)
  }

  /** The operator at `i`, and where its operands begin. */
  function OperatorAt(ts: seq<Token>, i: nat): (r: Option<(Operator, nat)>)
    requires i < |ts|
    ensures r.Some? ==> i < r.value.1 <= |ts|
  {
    match ts[i].kind
    case And => Some((PqfAnd, i + 1))
    case Or => Some((PqfOr, i + 1))
    case Not => Some((PqfNot, i + 1))
    case Prox =>
      if i + 7 <= |ts| && ProxReadable(Texts(ts, i + 1, 6)) then Some((PqfProx(Texts(ts, i + 1, 6)), i + 7)) else None
    case _ => None
  }

  datatype Structure = Malformed | Structure(expr: Expr, next: nat)

  /** rpn_structure. */
  function StructureAt(ts: seq<Token>, i: nat): (r: Structure)
    ensures r.Structure? ==> i < r.next <= |ts|
    decreases |ts| - i
  {
    if i >= |ts| then Malformed
    else if ts[i].kind == Term then Structure(Leaf(Word(ts[i].text)), i + 1)
    else if ts[i].kind == Set then
      if i + 1 < |ts| then Structure(Leaf(ResultSet(ts[i + 1].text)), i + 2) else Malformed
    else
      match OperatorAt(ts, i)
      case None => Malformed
      case Some((op, j)) =>
        match StructureAt(ts, j)
        case Malformed => Malformed
        case Structure(l, k) =>
          match StructureAt(ts, k)
          case Malformed => Malformed
          case Structure(r, e) => Structure(Node(op, l, r), e)
  }

  /** p_query_rpn: the whole text is one expression. */
  function Read(s: string): (r: Option<Expr>) {
    var ts := Lex(s, 0);
    match StructureAt(ts, 0)
    case Malformed => None
    case Structure(e, n) => if n == |ts| then Some(e) else None
  }

  // ---- meaning

  /** Which operands hold, and what a proximity operator makes of its sides. */
  datatype World = World(word: string -> bool, resultSet: string -> bool, prox: (seq<string>, bool, bool) -> bool)

  function Apply(w: World, op: Operator, l: bool, r: bool): bool {
    match op
    case PqfAnd => l && r
    case PqfOr => l || r
    case PqfNot => l && !r
    case PqfProx(ps) => w.prox(ps, l, r)
  }

  function Eval(e: Expr, w: World): bool {
    match e
    case Leaf(Word(t)) => w.word(t)
    case Leaf(ResultSet(n)) => w.resultSet(n)
    case Node(op, l, r) => Apply(w, op, Eval(l, w), Eval(r, w))
  }
}
