/** CCL queries as they are typed, from text to tree: src/ccltoken.c:58-186 and src/cclfind.c. */
module CclQueries {
  import opened Bytes
  import opened Pieces
  import opened CclTokens
  import opened CclFind
  import opened CclSpelling
  import opened CclGrammar

  // ---- what a term is read as

  /** A part of a term: bare, in quotes, or a character behind a backslash. */
  datatype Segment = Bare(text: string) | InQuotes(text: string) | Escaped(c: char)

  predicate IsSegment(x: Segment) {
    match x
    case Escaped(c) => c != '\\'
    case _ => '\\' !in x.text && '\"' !in x.text
  }

  function SegmentText(x: Segment): string {
    match x
    case Bare(t) => t
    case InQuotes(t) => "\"" + t + "\""
    case Escaped(c) => ['\\', c]
  }

  /** What the part stands for. */
  function Meant(x: Segment): string {
    match x
    case Escaped(c) => [c]
    case _ => x.text
  }

  function NameOf(xs: seq<Segment>): string {
    if xs == [] then "" else SegmentText(xs[0]) + NameOf(xs[1..])
  }

  function TextsOf(xs: seq<Segment>): string {
    if xs == [] then "" else Meant(xs[0]) + TextsOf(xs[1..])
  }

  predicate HasMask(t: string) { '?' in t || '#' in t }

  predicate AreSegments(xs: seq<Segment>) { forall k :: 0 <= k < |xs| ==> IsSegment(xs[k]) }

  /** No bare part has a truncation or mask character. */
  predicate Unmasked(xs: seq<Segment>) { forall k :: 0 <= k < |xs| ==> xs[k].Bare? ==> !HasMask(xs[k].text) }

  /** The character before is no backslash. */
  predicate Free(s: string, j: nat)
    requires j <= |s|
  {
    j > 0 ==> s[j - 1] != '\\'
  }

  /** Text without quotes and backslashes is kept; outside quotes a mask character is an error. */
  lemma {:induction false} AppendRun(s: string, j: nat, e: nat, quoted: bool)
    requires j <= e <= |s| && Free(s, j) && '\\' !in s[j..e] && '\"' !in s[j..e]
    ensures Free(s, e)
    ensures var r := Append(s, e, quoted);
            && (quoted || !HasMask(s[j..e]) ==> Append(s, j, quoted) == (r.0, s[j..e] + r.1))
            && (!quoted && HasMask(s[j..e]) ==> !Append(s, j, quoted).0)
    decreases e - j
  {
    if j < e {
      var rest := s[j + 1..e];
      assert s[j..e] == [s[j]] + rest;
      assert s[j] in s[j..e] && forall c <- rest :: c in s[j..e];
      AppendRun(s, j + 1, e, quoted);
      Regroup([s[j]], rest, Append(s, e, quoted).1);
    } else {
      assert s[j..e] == "" && "" + Append(s, e, quoted).1 == Append(s, e, quoted).1;
    }
  }

  lemma AppendQuote(s: string, j: nat, quoted: bool)
    requires j < |s| && s[j] == '\"' && Free(s, j)
    ensures Append(s, j, quoted) == Append(s, j + 1, !quoted) && Free(s, j + 1)
  {
  }

  lemma AppendEscaped(s: string, j: nat)
    requires j + 2 <= |s| && s[j] == '\\' && s[j + 1] != '\\' && Free(s, j)
    ensures Free(s, j + 2)
    ensures var r := Append(s, j + 2, false); Append(s, j, false) == (r.0, [s[j + 1]] + r.1)
  {
    assert Append(s, j, false) == Append(s, j + 1, false);
  }

  lemma {:induction false} AppendSegments(s: string, j: nat, xs: seq<Segment>)
    requires AreSegments(xs) && j <= |s| && s[j..] == NameOf(xs) && Free(s, j)
    ensures Append(s, j, false).0 <==> Unmasked(xs)
    ensures Unmasked(xs) ==> Append(s, j, false) == (true, TextsOf(xs))
    decreases |xs|
  {
    hide HasMask, Append, IsSegment, SegmentText, Meant, Free;
    if xs == [] {
      AppendEnd(s, j);
    } else {
      var x, rest := xs[0], xs[1..];
      var text := SegmentText(x);
      var e := j + |text|;
      NameSplit(s, j, text, NameOf(rest));
      SegmentAppended(s, j, e, x);
      AppendSegments(s, e, rest);
      UnmaskedStep(xs);
    }
  }

  lemma AppendEnd(s: string, j: nat)
    requires j == |s|
    ensures Append(s, j, false) == (true, "")
  {
  }

  lemma UnmaskedStep(xs: seq<Segment>)
    requires xs != []
    ensures Unmasked(xs) <==> (xs[0].Bare? ==> !HasMask(xs[0].text)) && Unmasked(xs[1..])
  {
    hide HasMask;
    assert xs == [xs[0]] + xs[1..];
  }

  lemma NameSplit(s: string, j: nat, a: string, b: string)
    requires j <= |s| && s[j..] == a + b
    ensures j + |a| <= |s| && s[j..j + |a|] == a && s[j + |a|..] == b
  {
    assert s[j..][..|a|] == a && s[j..][|a|..] == b;
  }

  lemma SegmentAppended(s: string, j: nat, e: nat, x: Segment)
    requires IsSegment(x) && j <= e <= |s| && s[j..e] == SegmentText(x) && Free(s, j)
    ensures Free(s, e)
    ensures var r := Append(s, e, false);
            && (x.Bare? && HasMask(x.text) ==> !Append(s, j, false).0)
            && (!x.Bare? || !HasMask(x.text) ==> Append(s, j, false) == (r.0, Meant(x) + r.1))
  {
    hide HasMask, Append, Free;
    match x
    case Bare(_) => AppendRun(s, j, e, false);
    case InQuotes(t) => {
      QuotedSlice(s, j, e, t);
      AppendQuote(s, j, false);
      AppendRun(s, j + 1, e - 1, true);
      AppendQuote(s, e - 1, true);
    }
    case Escaped(c) => {
      assert s[j] == s[j..e][0] && s[j + 1] == s[j..e][1];
      AppendEscaped(s, j);
    }
  }

  lemma QuotedSlice(s: string, j: nat, e: nat, t: string)
    requires j <= e <= |s| && s[j..e] == "\"" + t + "\""
    ensures e == j + |t| + 2 && s[j] == s[e - 1] == '\"' && s[j + 1..e - 1] == t
  {
    var u := "\"" + t + "\"";
    assert s[j] == s[j..e][0] && s[e - 1] == s[j..e][|u| - 1];
    forall k | j + 1 <= k < e - 1 ensures s[k] == t[k - j - 1] { assert s[k] == s[j..e][k - j] == u[k - j]; }
    assert s[j + 1..e - 1] == t;
  }

  /** Every term of such parts is read as what they stand for, unless a bare part is masked. */
  lemma TermRead(xs: seq<Segment>)
    requires AreSegments(xs)
    ensures var name := NameOf(xs);
            && (Append(name, 0, false).0 <==> Unmasked(xs))
            && (Unmasked(xs) ==> Append(name, 0, false) == (true, TextsOf(xs)))
  {
    assert NameOf(xs)[0..] == NameOf(xs);
    AppendSegments(NameOf(xs), 0, xs);
  }

  /** A name that is read as it stands. */
  predicate IsNeat(name: string) { '\\' !in name && '\"' !in name && !HasMask(name) }

  lemma NeatRead(name: string)
    requires '\\' !in name && '\"' !in name
    ensures Append(name, 0, false).0 <==> IsNeat(name)
    ensures IsNeat(name) ==> Append(name, 0, false) == (true, name)
  {
    var xs := [Bare(name)];
    assert xs[1..] == [] && NameOf([]) == "" && TextsOf([]) == "";
    assert name + "" == name;
    TermRead(xs);
  }

  // ---- phrases

  predicate AreNeat(ws: seq<Token>) { forall k :: 0 <= k < |ws| ==> IsNeat(ws[k].name) && ws[k].name != "" }

  /** The words of a term as they are typed, without the white space in front. */
  function Typed(ws: seq<Token>): string
    requires ws != []
  {
    ws[0].name + Spelling(ws[1..])
  }

  lemma {:induction false} TermTextNeat(ws: seq<Token>, k: nat, n: nat, text: string)
    requires AreNeat(ws) && k + n <= |ws| && text != ""
    ensures TermText(ws, k, n, text) == (true, text + Spelling(ws[k..k + n]))
    decreases n
  {
    hide Append, IsNeat;
    if n == 0 {
      assert ws[k..k] == [] && text + "" == text;
    } else {
      NeatNames(ws, k);
      var t := ws[k];
      TermTextNeat(ws, k + 1, n - 1, text + t.ws + t.name);
      assert ws[k..k + n] == [t] + ws[k + 1..k + n];
      FirstSpelled(t, ws[k + 1..k + n]);
      assert text + (t.ws + t.name + Spelling(ws[k + 1..k + n])) == text + t.ws + t.name + Spelling(ws[k + 1..k + n]);
    }
  }

  lemma NeatNames(ws: seq<Token>, k: nat)
    requires AreNeat(ws) && k < |ws|
    ensures ws[k].name != "" && Append(ws[k].name, 0, false) == (true, ws[k].name)
  {
    NeatRead(ws[k].name);
  }

  /** A phrase of neat words is one term, typed as it is. */
  lemma {:induction false} PhraseRead(ws: seq<Token>)
    requires ws != [] && AreNeat(ws) && |ws| <= MAX_PHRASE
    ensures PhraseTree(ws, []) == Some(TermNode(Typed(ws)))
  {
    hide Append, TermText, IsNeat;
    var n := |ws|;
    NeatNames(ws, 0);
    FirstStep(ws);
    TermTextNeat(ws, 1, n - 1, ws[0].name);
    assert ws[1..n] == ws[1..] && ws[n..] == [];
    assert PhraseTree([], [TermNode(Typed(ws))]) == Some(TermNode(Typed(ws)));
  }

  lemma FirstStep(ws: seq<Token>)
    requires ws != [] && Append(ws[0].name, 0, false) == (true, ws[0].name)
    ensures TermText(ws, 0, |ws|, "") == TermText(ws, 1, |ws| - 1, ws[0].name)
  {
    hide Append;
    assert "" + ws[0].name == ws[0].name;
  }

  // ---- from text to tree

  /** Every text without quotes and backslashes: it is a query for a tree if and only if the grammar derives
      tokens that spell it. */
  lemma TextExactly(s: string, p: Rpn)
    requires IsUnquoted(s)
    ensures FindToken(Tokenize(s)).Ok? && FindToken(Tokenize(s)).node == p <==>
              exists c, eol :: SpecOk(c) && AreTokens(SpecTokens(c) + [eol]) && Spelling(SpecTokens(c) + [eol]) == s &&
                SpecTree(c) == p
  {
    hide FindToken, SpecOk, SpecTokens, SpecTree, AreTokens, Spelling, Lex;
    var ts := Tokenize(s);
    var n := |ts| - 1;
    TokenizeExactly(s, ts);
    ParsesExactly(ts, p);
    if FindToken(ts).Ok? && FindToken(ts).node == p {
      assert FindToken(ts) == Ok(p, n);
      var c :| SpecOk(c) && SpecTokens(c) == ts[..n] && SpecTree(c) == p;
      assert ts == ts[..n] + [ts[n]];
    }
    if c, eol :|
      && SpecOk(c) && AreTokens(SpecTokens(c) + [eol]) && Spelling(SpecTokens(c) + [eol]) == s && SpecTree(c) == p
    {
      TokenizeExactly(s, SpecTokens(c) + [eol]);
      assert ts == SpecTokens(c) + [eol];
      QueryParsed(c, eol);
    }
  }

  // ---- words joined by operators

  /** A word that is neither an operator nor "set", and has no mask character. */
  predicate IsTerm(w: string) { IsPlain(w) && w !in KEYWORDS && !HasMask(w) }

  const EOL := Token(Eol, "", "")

  function Word(ws: string, w: string): Token { Token(Term, ws, w) }

  function WordSpec(ws: string, w: string): Elements { Near(Single(Phrase([Word(ws, w)]))) }

  lemma WordOk(ws: string, w: string)
    requires IsTerm(w)
    ensures ElementsOk(WordSpec(ws, w)) && ElementsTree(WordSpec(ws, w)) == TermNode(w)
  {
    hide PhraseTree;
    var words := [Word(ws, w)];
    PlainIsNeat(w);
    PhraseRead(words);
    assert words[1..] == [] && Spelling([]) == "" && w + "" == w;
    var x := Phrase(words);
    assert OperandOk(x) && OperandTree(x) == TermNode(w) && !QualifierAhead(words, 0);
    assert TermsOk(Single(x)) && TermsTree(Single(x)) == OperandTree(x) && FirstOperand(Single(x)) == x;
  }

  lemma WordSpecTokens(ws: string, w: string)
    ensures ElementsTokens(WordSpec(ws, w)) == [Word(ws, w)]
  {
    var x := Phrase([Word(ws, w)]);
    assert TermsTokens(Single(x)) == OperandTokens(x);
  }

  lemma WordIsToken(ws: string, w: string)
    requires IsTerm(w) && IsWhite(ws)
    ensures IsToken(Word(ws, w))
  {
  }

  lemma PlainIsNeat(w: string)
    requires IsTerm(w)
    ensures IsNeat(w)
  {
  }

  /** An operator and a word. */
  datatype More = More(op: Op, word: string)

  function OpName(op: Op): string {
    match op
    case AndOp => "and"
    case OrOp => "or"
    case NotOp => "not"
  }

  function OpToken(op: Op): Token {
    Token(match op { case AndOp => And case OrOp => Or case NotOp => Not }, " ", OpName(op))
  }

  /** The words with their operators, one blank between them. */
  function Words(w: string, more: seq<More>): string {
    if more == [] then w
    else
      var m := more[|more| - 1];
      Words(w, more[..|more| - 1]) + (" " + OpName(m.op) + (" " + m.word))
  }

  /** Each operator takes all that is on its left. */
  function LeftTree(w: string, more: seq<More>): Rpn {
    if more == [] then TermNode(w)
    else
      var m := more[|more| - 1];
      BoolNode(m.op, LeftTree(w, more[..|more| - 1]), TermNode(m.word))
  }

  function WordsSpec(w: string, more: seq<More>): Spec {
    if more == [] then One(WordSpec("", w))
    else
      var m := more[|more| - 1];
      Join(WordsSpec(w, more[..|more| - 1]), OpToken(m.op), WordSpec(" ", m.word))
  }

  predicate AreTerms(more: seq<More>) { forall k :: 0 <= k < |more| ==> IsTerm(more[k].word) }

  lemma {:induction false} WordsOk(w: string, more: seq<More>)
    requires IsTerm(w) && AreTerms(more)
    ensures SpecOk(WordsSpec(w, more)) && SpecTree(WordsSpec(w, more)) == LeftTree(w, more)
    decreases |more|
  {
    hide ElementsOk, ElementsTree, IsTerm;
    if more == [] {
      WordOk("", w);
    } else {
      var m := more[|more| - 1];
      WordsOk(w, more[..|more| - 1]);
      WordOk(" ", m.word);
    }
  }

  lemma {:induction false} WordsTokens(w: string, more: seq<More>)
    requires IsTerm(w) && AreTerms(more)
    ensures var ts := SpecTokens(WordsSpec(w, more));
            && AreTokens(ts + [EOL]) && Spelling(ts + [EOL]) == Words(w, more) 
            && |ts| == 1 + 2 * |more| && ts[|ts| - 1].kind == Term
    decreases |more|
  {
    hide IsTerm, AreTokens, Spelling, WordSpec, IsToken;
    if more == [] {
      OneWord(w);
      WordSpecTokens("", w);
    } else {
      var m := more[|more| - 1];
      var op, word := OpToken(m.op), Word(" ", m.word);
      var before := SpecTokens(WordsSpec(w, more[..|more| - 1]));
      WordsTokens(w, more[..|more| - 1]);
      WordSpecTokens(" ", m.word);
      WordIsToken(" ", m.word);
      OpIsToken(m.op);
      TwoMore(before, op, word);
      SpelledMore(before, op, word);
      ThreeMore(before, op, word);
    }
  }

  lemma ThreeMore(ts: seq<Token>, op: Token, word: Token)
    ensures var us := ts + ([op] + [word]);
            us + [EOL] == ts + [op, word, EOL] && |us| == |ts| + 2 && us[|us| - 1] == word
  {
  }

  lemma OpIsToken(op: Op)
    ensures IsToken(OpToken(op)) && OpToken(op).kind in {And, Or, Not} && OpToken(op).ws == " "
  {
  }

  lemma OneWord(w: string)
    requires IsTerm(w)
    ensures AreTokens([Word("", w)] + [EOL]) && Spelling([Word("", w)] + [EOL]) == w
  {
    FirstSpelled(Word("", w), [EOL]);
    LastSpelled(EOL);
  }

  lemma TwoMore(ts: seq<Token>, op: Token, word: Token)
    requires ts != [] && AreTokens(ts + [EOL]) && ts[|ts| - 1].kind == Term
    requires IsToken(op) && op.kind in {And, Or, Not} && op.ws == " "
    requires IsToken(word) && word.kind == Term && word.ws == " "
    ensures AreTokens(ts + [op, word, EOL])
  {
    hide IsName;
    var us, vs := ts + [EOL], ts + [op, word, EOL];
    forall k | 0 <= k < |vs| ensures IsToken(vs[k]) && (vs[k].kind == Eol <==> k == |vs| - 1) {
      if k < |ts| { assert vs[k] == us[k]; } else if k == |vs| - 1 { assert vs[k] == us[|ts|]; }
    }
    forall k | 0 < k < |vs| ensures KeepApart(vs[k - 1], vs[k]) {
      if k < |ts| { assert vs[k - 1] == us[k - 1] && vs[k] == us[k] && KeepApart(us[k - 1], us[k]); }
    }
  }

  lemma {:induction false} SpelledMore(ts: seq<Token>, op: Token, word: Token)
    ensures Spelling(ts + [op, word, EOL]) == Spelling(ts + [EOL]) + (op.ws + op.name + (word.ws + word.name))
    decreases |ts|
  {
    hide Spelling;
    var tail := op.ws + op.name + (word.ws + word.name);
    if ts == [] {
      assert [] + [EOL] == [EOL] && [] + [op, word, EOL] == [op] + ([word] + [EOL]);
      LastSpelled(EOL);
      FirstSpelled(word, [EOL]);
      FirstSpelled(op, [word] + [EOL]);
    } else {
      var t, rest := ts[0], ts[1..];
      assert ts + [EOL] == [t] + (rest + [EOL]) && ts + [op, word, EOL] == [t] + (rest + [op, word, EOL]);
      FirstSpelled(t, rest + [EOL]);
      FirstSpelled(t, rest + [op, word, EOL]);
      SpelledMore(rest, op, word);
      Regroup(t.ws + t.name, Spelling(rest + [EOL]), tail);
    }
  }

  /** Words joined by "and", "or" and "not": the operators bind alike, from the left. */
  lemma WordsParsed(w: string, more: seq<More>)
    requires IsTerm(w) && AreTerms(more)
    ensures FindToken(Tokenize(Words(w, more))) == Ok(LeftTree(w, more), 1 + 2 * |more|)
  {
    hide FindToken, AreTokens, SpecOk, SpecTree, SpecTokens, Spelling, Lex, IsTerm, WordsSpec;
    WordsOk(w, more);
    WordsTokens(w, more);
    var ts := SpecTokens(WordsSpec(w, more)) + [EOL];
    assert Words(w, more)[0..] == Words(w, more);
    LexTokens(Words(w, more), 0, ts);
    QueryParsed(WordsSpec(w, more), EOL);
  }
}
