/** The CCL lexical analyser, src/ccltoken.c:58-186, on texts without quotes and backslashes: the tokens of a
    text are the one list of well-spaced tokens that spells it. */
module CclSpelling {
  import opened Chars
  import opened Pieces
  import opened CclTokens

  const WHITE := {' ', '\t', '\r', '\n'}
  const RELATION := {'<', '=', '>'}
  const PUNCTUATION := {'(', ')', ',', '%', '!', '<', '=', '>'}
  const KEYWORDS := {"and", "or", "not", "andnot", "set"}

  /** A word as it is typed: no white space, punctuation, quote or backslash in it. */
  predicate IsPlain(w: string) {
    w != "" && forall k :: 0 <= k < |w| ==> IsWordChar(w[k])
  }

  predicate IsWordChar(c: char) { c !in WHITE && c !in PUNCTUATION && c != '\\' && c != '\"' }

  predicate AreDigits(t: string) { forall k :: 0 <= k < |t| ==> '0' <= t[k] <= '9' }

  /** The names of the tokens of a kind. */
  predicate IsName(k: Kind, name: string) {
    match k
    case Eol => name == ""
    case Lp => name == "("
    case Rp => name == ")"
    case Comma => name == ","
    case Eq => name == "="
    case Rel => name == "<" || name == ">" || (|name| == 2 && name[0] in RELATION && name[1] in RELATION)
    case Prox => name != "" && (name[0] == '%' || name[0] == '!') && AreDigits(name[1..])
    case And => name == "and"
    case Or => name == "or"
    case Not => name == "not" || name == "andnot"
    case Set => name == "set"
    case Term => IsPlain(name) && name !in KEYWORDS
  }

  /** A token ends in front of this character. */
  predicate EndsBefore(t: Token, c: char) {
    match t.kind
    case Eol => false
    case Lp => true
    case Rp => true
    case Comma => true
    case Eq => c !in RELATION
    case Rel => |t.name| == 2 || c !in RELATION
    case Prox => !('0' <= c <= '9')
    case _ => c in WHITE || c in PUNCTUATION
  }

  predicate IsWhite(t: string) { forall k :: 0 <= k < |t| ==> t[k] in WHITE }

  predicate IsToken(t: Token) { IsWhite(t.ws) && IsName(t.kind, t.name) }

  /** Tokens that keep apart, with the end of the text behind them. */
  predicate AreTokens(ts: seq<Token>) {
    && ts != []
    && (forall k :: 0 <= k < |ts| ==> IsToken(ts[k]) && (ts[k].kind == Eol <==> k == |ts| - 1))
    && (forall k :: 0 < k < |ts| ==> KeepApart(ts[k - 1], ts[k]))
  }

  predicate KeepApart(t: Token, next: Token) {
    var text := next.ws + next.name; text != "" ==> EndsBefore(t, text[0])
  }

  // ---- such tokens are found again

  lemma CharClasses(c: char)
    ensures IsSpace(c) <==> c in WHITE
    ensures EndsTerm(c) <==> c in WHITE || c in PUNCTUATION
    ensures IsRelChar(c) <==> c in RELATION
    ensures IsDigit(c) <==> '0' <= c <= '9'
  {
    assert c in "(),%!><=" <==> c in PUNCTUATION;
  }

  lemma KeywordsArePlain(name: string)
    requires name in KEYWORDS
    ensures IsPlain(name)
  {
    hide IsWordChar;
    KeywordLetters(name);
    forall k | 0 <= k < |name| ensures IsWordChar(name[k]) { LetterInWord(name[k]); }
  }

  lemma KeywordLetters(name: string)
    requires name in KEYWORDS
    ensures name != "" && forall k :: 0 <= k < |name| ==> 'a' <= name[k] <= 'z'
  {
  }

  lemma LetterInWord(c: char)
    requires 'a' <= c <= 'z'
    ensures IsWordChar(c)
  {
  }

  /** A word of any kind is plain, and its kind is found. */
  lemma WordName(k: Kind, name: string)
    requires k in {And, Or, Not, Set, Term} && IsName(k, name)
    ensures IsPlain(name) && WordKind(name) == k
  {
    hide IsPlain;
    if k != Term { KeywordsArePlain(name); }
  }

  lemma NameOfWord(name: string)
    requires IsPlain(name)
    ensures WordKind(name) in {And, Or, Not, Set, Term} && IsName(WordKind(name), name)
  {
    hide IsPlain;
  }

  lemma {:induction false} TermEndPlain(t: string, i: nat, e: nat)
    requires i <= e <= |t| && (e == |t| || EndsTerm(t[e]))
    requires forall k :: i <= k < e ==> IsWordChar(t[k])
    ensures TermEnd(t, i) == e
    decreases e - i
  {
    if i < e {
      CharClasses(t[i]);
      TermEndPlain(t, i + 1, e);
    }
  }

  lemma CharsAt(s: string, i: nat, t: string)
    requires OccursAt(s, i, t)
    ensures i + |t| <= |s| && s[i..i + |t|] == t && forall k :: i <= k < i + |t| ==> s[k] == t[k - i]
  {
    forall k | i <= k < i + |t| ensures s[k] == t[k - i] { assert s[i + (k - i)] == t[k - i]; }
  }

  /** A token is scanned to its end. */
  lemma ScanToken(s: string, i: nat, t: Token)
    requires t.kind != Eol && IsName(t.kind, t.name) && OccursAt(s, i, t.name)
    requires i + |t.name| == |s| || EndsBefore(t, s[i + |t.name|])
    ensures i < |s| && !IsSpace(s[i]) && Scan(s, i) == (t.kind, i + |t.name|)
  {
    hide OccursAt, TermEnd, WordKind, SkipDigits;
    CharsAt(s, i, t.name);
    var e := i + |t.name|;
    if e < |s| { CharClasses(s[e]); }
    if t.kind == Prox {
      forall k | i + 1 <= k < e ensures IsDigit(s[k]) { assert t.name[1..][k - i - 1] == s[k]; }
      DigitsSkipped(s, i + 1, e);
    } else if t.kind in {And, Or, Not, Set, Term} {
      WordName(t.kind, t.name);
      ScanWord(s, i, e, t.kind);
    }
  }

  lemma ScanWord(s: string, i: nat, e: nat, k: Kind)
    requires i < e <= |s| && IsPlain(s[i..e]) && WordKind(s[i..e]) == k
    requires e == |s| || EndsTerm(s[e])
    ensures !IsSpace(s[i]) && Scan(s, i) == (k, e)
  {
    hide TermEnd, WordKind, SkipDigits, IsWordChar;
    forall m | i <= m < e ensures IsWordChar(s[m]) { assert s[m] == s[i..e][m - i]; }
    TermEndPlain(s, i, e);
    StartsWord(s[i]);
  }

  lemma StartsWord(c: char)
    requires IsWordChar(c)
    ensures !IsSpace(c) && !IsRelChar(c) && c !in {'(', ')', ',', '%', '!'}
  {
    CharClasses(c);
  }

  lemma DigitsSkipped(s: string, i: nat, e: nat)
    requires i <= e <= |s| && (forall k :: i <= k < e ==> IsDigit(s[k])) && (e == |s| || !IsDigit(s[e]))
    ensures SkipDigits(s, i) == e
  {
  }

  lemma SpaceSkipped(s: string, i: nat, e: nat)
    requires i <= e <= |s| && (forall k :: i <= k < e ==> IsSpace(s[k])) && (e == |s| || !IsSpace(s[e]))
    ensures SkipSpace(s, i) == e
  {
  }

  lemma {:induction false} LexTokens(s: string, i: nat, ts: seq<Token>)
    requires i <= |s| && AreTokens(ts) && s[i..] == Spelling(ts)
    ensures Lex(s, i) == ts
    decreases |ts|
  {
    hide Lex, Scan, IsName, EndsBefore, OccursAt, Spelling, AreTokens, KeepApart, IsToken, IsWhite, IsSpace;
    FirstOf(ts);
    var t, rest := ts[0], ts[1..];
    var j := i + |t.ws|;
    SpellingParts(s, i, ts);
    LexStep(s, i);
    WhiteIsSpace(s, i, j);
    if t.kind == Eol {
      SpellingEmpty();
      SpaceSkipped(s, i, j);
      assert ts == [t];
    } else {
      var e := j + |t.name|;
      NextChar(s, e, t, rest);
      ScanToken(s, j, t);
      SpaceSkipped(s, i, j);
      LexTokens(s, e, rest);
      assert ts == [t] + rest;
    }
  }

  lemma WhiteIsSpace(s: string, i: nat, j: nat)
    requires i <= j <= |s| && IsWhite(s[i..j])
    ensures forall k :: i <= k < j ==> IsSpace(s[k])
  {
    forall k | i <= k < j ensures IsSpace(s[k]) {
      assert s[k] == s[i..j][k - i];
      CharClasses(s[k]);
    }
  }

  /** The first token and the others. */
  lemma FirstOf(ts: seq<Token>)
    requires AreTokens(ts)
    ensures ts != [] && IsWhite(ts[0].ws) && IsName(ts[0].kind, ts[0].name)
    ensures ts[0].kind == Eol ==> ts[0].name == "" && ts[1..] == []
    ensures ts[0].kind != Eol ==> |ts| > 1 && AreTokens(ts[1..]) && KeepApart(ts[0], ts[1])
  {
    hide EndsBefore;
    if ts[0].kind != Eol {
      var rest := ts[1..];
      forall k | 0 < k < |rest| ensures KeepApart(rest[k - 1], rest[k]) { assert KeepApart(ts[k], ts[k + 1]); }
    }
  }

  lemma NextChar(s: string, e: nat, t: Token, rest: seq<Token>)
    requires AreTokens(rest) && KeepApart(t, rest[0]) && e <= |s| && s[e..] == Spelling(rest)
    ensures e == |s| || EndsBefore(t, s[e])
  {
    hide EndsBefore;
    var next := rest[0].ws + rest[0].name;
    assert rest == [rest[0]] + rest[1..];
    FirstSpelled(rest[0], rest[1..]);
    if next == "" {
      NamesAreNotEmpty(rest[0]);
      SpellingEmpty();
    } else {
      assert s[e] == s[e..][0] == next[0];
    }
  }

  lemma NamesAreNotEmpty(t: Token)
    requires IsToken(t) && t.name == ""
    ensures t.kind == Eol
  {
  }

  lemma SpellingEmpty()
    ensures Spelling([]) == ""
  {
  }

  lemma SpellingParts(s: string, i: nat, ts: seq<Token>)
    requires i <= |s| && ts != [] && s[i..] == Spelling(ts)
    ensures var t := ts[0];
            var j := i + |t.ws|;
            var e := j + |t.name|;
            && e <= |s| && s[i..j] == t.ws && s[j..e] == t.name && OccursAt(s, j, t.name) && s[e..] == Spelling(ts[1..])
  {
    hide Spelling;
    var t, rest := ts[0], Spelling(ts[1..]);
    assert ts == [t] + ts[1..];
    FirstSpelled(t, ts[1..]);
    ThreeSlices(s, i, t.ws, t.name, rest);
  }

  lemma ThreeSlices(s: string, i: nat, a: string, b: string, c: string)
    requires i <= |s| && s[i..] == a + b + c
    ensures var j := i + |a|;
            var e := j + |b|;
            && e <= |s| && s[i..j] == a && s[j..e] == b && OccursAt(s, j, b) && s[e..] == c
  {
    var j := i + |a|;
    var e := j + |b|;
    var t := a + b + c;
    assert |s| - i == |t|;
    forall k | i <= k < |s| ensures s[k] == t[k - i] { assert s[i..][k - i] == s[k]; }
  }

  // ---- and no others are

  predicate IsUnquoted(s: string) { '\\' !in s && '\"' !in s }

  lemma {:induction false} TermEndFound(s: string, i: nat)
    requires i <= |s| && IsUnquoted(s)
    ensures var e := TermEnd(s, i);
            (forall k :: i <= k < e ==> IsWordChar(s[k])) && (e == |s| || EndsTerm(s[e]))
    decreases |s| - i
  {
    if i < |s| && !EndsTerm(s[i]) {
      assert s[i] in s;
      CharClasses(s[i]);
      TermEndFound(s, i + 1);
    }
  }

  lemma ScanFound(s: string, i: nat)
    requires i < |s| && !IsSpace(s[i]) && IsUnquoted(s)
    ensures var (kind, e) := Scan(s, i);
            && kind != Eol && IsName(kind, s[i..e]) && (e == |s| || EndsBefore(Token(kind, "", s[i..e]), s[e]))
  {
    hide TermEnd, SkipDigits, WordKind, IsSpace, EndsTerm, IsRelChar;
    var (kind, e) := Scan(s, i);
    var name := s[i..e];
    CharClasses(s[i]);
    if i + 1 < |s| { CharClasses(s[i + 1]); }
    if e < |s| { CharClasses(s[e]); }
    if s[i] == '%' || s[i] == '!' {
      forall k | 0 <= k < |name[1..]| ensures IsDigit(name[1..][k]) { assert name[1..][k] == s[i + 1 + k]; }
    } else if !EndsTerm(s[i]) {
      TermEndFound(s, i);
      forall k | 0 <= k < |name| ensures IsWordChar(name[k]) { assert name[k] == s[i + k]; }
      NameOfWord(name);
    }
  }

  lemma {:induction false} LexFound(s: string, i: nat)
    requires i <= |s| && IsUnquoted(s)
    ensures AreTokens(Lex(s, i))
    decreases |s| - i
  {
    hide Scan, IsName, EndsBefore, Lex;
    LexStep(s, i);
    var j := SkipSpace(s, i);
    WhiteFound(s, i, j);
    if j == |s| {
      EolIsToken(s[i..j]);
    } else {
      var (kind, e) := Scan(s, j);
      var t := Token(kind, s[i..j], s[j..e]);
      ScanFound(s, j);
      SameEnd(t, s[j..e]);
      LexFound(s, e);
      Lossless(s, e);
      FirstChar(s, e, Lex(s, e));
      InFrontOf(t, Lex(s, e));
    }
  }

  lemma WhiteFound(s: string, i: nat, j: nat)
    requires i <= j <= |s| && forall k :: i <= k < j ==> IsSpace(s[k])
    ensures IsWhite(s[i..j])
  {
    forall k | 0 <= k < j - i ensures s[i..j][k] in WHITE { CharClasses(s[i + k]); }
  }

  lemma FirstChar(s: string, e: nat, rest: seq<Token>)
    requires e <= |s| && AreTokens(rest) && s[e..] == Spelling(rest)
    ensures var next := rest[0].ws + rest[0].name; next != "" ==> e < |s| && s[e] == next[0]
  {
    assert rest == [rest[0]] + rest[1..];
    FirstSpelled(rest[0], rest[1..]);
    var next := rest[0].ws + rest[0].name;
    if next != "" { assert s[e..][0] == next[0]; }
  }

  lemma InFrontOf(t: Token, rest: seq<Token>)
    requires IsToken(t) && t.kind != Eol && AreTokens(rest) && KeepApart(t, rest[0])
    ensures AreTokens([t] + rest)
  {
    hide IsToken, KeepApart;
    var ts := [t] + rest;
    forall k | 0 < k < |ts| ensures KeepApart(ts[k - 1], ts[k]) {
      if k > 1 { assert KeepApart(rest[k - 2], rest[k - 1]); }
    }
  }

  lemma EolIsToken(ws: string)
    requires IsWhite(ws)
    ensures AreTokens([Token(Eol, ws, "")])
  {
  }

  lemma SameEnd(t: Token, name: string)
    requires t.name == name
    ensures forall c: char :: EndsBefore(t, c) <==> EndsBefore(Token(t.kind, "", name), c)
  {
  }

  /** The lexer is exact on texts without quotes and backslashes. */
  lemma TokenizeExactly(s: string, ts: seq<Token>)
    requires IsUnquoted(s)
    ensures Tokenize(s) == ts <==> AreTokens(ts) && Spelling(ts) == s
  {
    hide Lex, AreTokens, Spelling;
    assert s[0..] == s;
    LexFound(s, 0);
    Lossless(s, 0);
    if AreTokens(ts) && Spelling(ts) == s {
      LexTokens(s, 0, ts);
    }
  }
}
