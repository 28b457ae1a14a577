/** The CCL lexical analyser, src/ccltoken.c, with the default keywords. The end of the Dafny string
    stands for the NUL that ends the C string. */
module CclTokens {
  import opened Chars
  import opened Pieces

  datatype Kind = Eol | Term | Rel | Eq | Prox | Lp | Rp | Comma | And | Or | Not | Set

  datatype Token = Token(kind: Kind, ws: string, name: string)

  predicate IsSpace(c: char) {
    c == ' ' || c == '\t' || c == '\r' || c == '\n'
  }

  /** Characters that end an unquoted term. */
  predicate EndsTerm(c: char) {
    c in "(),%!><=" || IsSpace(c)
  }

  predicate IsRelChar(c: char) {
    c == '=' || c == '<' || c == '>'
  }

  function SkipSpace(s: string, i: nat): (j: nat)
    requires i <= |s|
    ensures i <= j <= |s| && (j < |s| ==> !IsSpace(s[j])) && forall k :: i <= k < j ==> IsSpace(s[k])
    decreases |s| - i
  {
    if i < |s| && IsSpace(s[i]) then SkipSpace(s, i + 1) else i
  }

  function SkipDigits(s: string, i: nat): (j: nat)
    requires i <= |s|
    ensures i <= j <= |s| && (j < |s| ==> !IsDigit(s[j])) && forall k :: i <= k < j ==> IsDigit(s[k])
    decreases |s| - i
  {
    if i < |s| && IsDigit(s[i]) then SkipDigits(s, i + 1) else i
  }

  /** The quote loop, from an opening quote or the character before the next one to look at: position of
      the closing quote, or |s|. */
  function QuoteEnd(s: string, i: nat): (j: nat)
    requires i < |s|
    ensures i < j <= |s|
    decreases |s| - i
  {
    if i + 1 == |s| then |s|
    else if s[i + 1] == '\\' && i + 2 < |s| then QuoteEnd(s, i + 2)
    else if s[i + 1] == '\"' then i + 1
    else QuoteEnd(s, i + 1)
  }

  /** The term loop: where an unquoted term ends. */
  function TermEnd(s: string, i: nat): (j: nat)
    requires i <= |s|
    ensures i <= j <= |s|
    ensures i < |s| && !EndsTerm(s[i]) ==> i < j
    decreases |s| - i
  {
    if i == |s| || EndsTerm(s[i]) then i
    else
      var j := if s[i] == '\\' && i + 1 < |s| then i + 1 else if s[i] == '\"' then QuoteEnd(s, i) else i;
      if j == |s| then j else TermEnd(s, j + 1)
  }

  /** token_cmp against the default keyword lists, case-sensitive. */
  function WordKind(name: string): Kind {
    if name == "and" then And
    else if name == "or" then Or
    else if name == "not" || name == "andnot" then Not
    else if name == "set" then Set
    else Term
  }

  /** Kind and end of the token that starts at `i`. */
  function Scan(s: string, i: nat): (r: (Kind, nat))
    requires i < |s| && !IsSpace(s[i])
    ensures i < r.1 <= |s| && r.0 != Eol
  {
    var c := s[i];
    if c == '(' then (Lp, i + 1)
    else if c == ')' then (Rp, i + 1)
    else if c == ',' then (Comma, i + 1)
    else if c == '%' || c == '!' then (Prox, SkipDigits(s, i + 1))
    else if IsRelChar(c) then
      if i + 1 < |s| && IsRelChar(s[i + 1]) then (Rel, i + 2)
      else (if c == '=' then Eq else Rel, i + 1)
    else (WordKind(s[i..TermEnd(s, i)]), TermEnd(s, i))
  }

  /** ccl_parser_tokenize from position `i`; the last token is Eol. */
  function Lex(s: string, i: nat): (ts: seq<Token>)
    requires i <= |s|
    ensures |ts| > 0 && ts[|ts| - 1].kind == Eol
    ensures forall k :: 0 <= k < |ts| - 1 ==> ts[k].kind != Eol && ts[k].name != ""
    decreases |s| - i
  {
    var j := SkipSpace(s, i);
    if j == |s| then [Token(Eol, s[i..j], "")]
    else
      var (kind, end) := Scan(s, j);
      [Token(kind, s[i..j], s[j..end])] + Lex(s, end)
  }

  function Tokenize(s: string): seq<Token> {
    Lex(s, 0)
  }

  /** White space prefixes and names in order. */
  function Spelling(ts: seq<Token>): string {
    if ts == [] then "" else ts[0].ws + ts[0].name + Spelling(ts[1..])
  }

  /** Lossless lexing: the tokens spell the input, whatever it is. */
  lemma {:induction false} Lossless(s: string, i: nat)
    requires i <= |s|
    ensures Spelling(Lex(s, i)) == s[i..]
    decreases |s| - i
  {
    hide Scan, SkipSpace, Spelling;
    var j := SkipSpace(s, i);
    if j == |s| {
      LastSpelled(Token(Eol, s[i..j], ""));
    } else {
      var end := Scan(s, j).1;
      Lossless(s, end);
      FirstSpelled(Token(Scan(s, j).0, s[i..j], s[j..end]), Lex(s, end));
      ThreeParts(s, i, j, end);
    }
  }

  lemma LastSpelled(t: Token)
    requires t.name == ""
    ensures Spelling([t]) == t.ws
  {
    assert Spelling([]) == "";
  }

  lemma FirstSpelled(t: Token, rest: seq<Token>)
    ensures Spelling([t] + rest) == t.ws + t.name + Spelling(rest)
  {
    assert ([t] + rest)[1..] == rest;
  }

  lemma ThreeParts(s: string, i: nat, j: nat, k: nat)
    requires i <= j <= k <= |s|
    ensures s[i..] == s[i..j] + s[j..k] + s[k..]
  {
  }

  /** The quote loop as it moves through the string. */
  method QuoteLoop(s: string, start: nat) returns (cp: nat)
    requires start < |s|
    ensures cp == QuoteEnd(s, start)
  {
    cp := start;
    while cp < |s|
      invariant start <= cp <= |s|
      invariant QuoteEnd(s, start) == if cp == |s| then cp else QuoteEnd(s, cp)
      decreases |s| - cp
    {
      cp := cp + 1;
      if cp < |s| && s[cp] == '\\' && cp + 1 < |s| {
        cp := cp + 1;
      } else if cp < |s| && s[cp] == '\"' {
        break;
      }
    }
  }

  /** The term loop. */
  method TermLoop(s: string, start: nat) returns (cp: nat)
    requires start <= |s|
    ensures cp == TermEnd(s, start)
  {
    hide QuoteEnd;
    cp := start;
    while cp < |s| && !EndsTerm(s[cp])
      invariant start <= cp <= |s| && TermEnd(s, cp) == TermEnd(s, start)
      decreases |s| - cp
    {
      if s[cp] == '\\' && cp + 1 < |s| {
        cp := cp + 1;
      } else if s[cp] == '\"' {
        cp := QuoteLoop(s, cp);
      }
      if cp == |s| {
        break;
      }
      cp := cp + 1;
    }
  }

  /** ccl_parser_tokenize. */
  method CclParserTokenize(s: string) returns (ts: seq<Token>)
    ensures ts == Tokenize(s)
    ensures Spelling(ts) == s
  {
    hide SkipSpace, Scan, Lex;
    ts := [];
    var cp := 0;
    assert [] + Lex(s, 0) == Lex(s, 0);
    while true
      invariant 0 <= cp <= |s| && ts + Lex(s, cp) == Lex(s, 0)
      decreases |s| - cp
    {
      var cp0 := cp;
      LexStep(s, cp0);
      cp := SpaceLoop(s, cp0);
      if cp == |s| {
        ts := ts + [Token(Eol, s[cp0..cp], "")];
        break;
      }
      var kind, end := OneToken(s, cp);
      var t := Token(kind, s[cp0..cp], s[cp..end]);
      Regroup(ts, [t], Lex(s, end));
      ts := ts + [t];
      cp := end;
    }
    Lossless(s, 0);
    assert s[0..] == s;
  }

  lemma LexStep(s: string, i: nat)
    requires i <= |s|
    ensures var j := SkipSpace(s, i);
            Lex(s, i) == if j == |s| then [Token(Eol, s[i..j], "")]
                         else [Token(Scan(s, j).0, s[i..j], s[j..Scan(s, j).1])] + Lex(s, Scan(s, j).1)
  {
    hide Scan;
  }

  method SpaceLoop(s: string, start: nat) returns (cp: nat)
    requires start <= |s|
    ensures cp == SkipSpace(s, start)
  {
    cp := start;
    while cp < |s| && IsSpace(s[cp])
      invariant start <= cp <= |s| && SkipSpace(s, cp) == SkipSpace(s, start)
    {
      cp := cp + 1;
    }
  }

  /** The switch on the first character of a token. */
  method OneToken(s: string, start: nat) returns (kind: Kind, end: nat)
    requires start < |s| && !IsSpace(s[start])
    ensures (kind, end) == Scan(s, start)
  {
    hide TermEnd;
    var c := s[start];
    end := start + 1;
    if c == '(' {
      kind := Lp;
    } else if c == ')' {
      kind := Rp;
    } else if c == ',' {
      kind := Comma;
    } else if c == '%' || c == '!' {
      kind := Prox;
      while end < |s| && IsDigit(s[end])
        invariant start < end <= |s| && SkipDigits(s, end) == SkipDigits(s, start + 1)
      {
        end := end + 1;
      }
    } else if c == '>' || c == '<' || c == '=' {
      if end < |s| && (s[end] == '=' || s[end] == '<' || s[end] == '>') {
        end := end + 1;
        kind := Rel;
      } else if c == '=' {
        kind := Eq;
      } else {
        kind := Rel;
      }
    } else {
      end := TermLoop(s, start);
      kind := WordKind(s[start..end]);
    }
  }
}
