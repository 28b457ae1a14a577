/** Which printed pieces the reader of prefix notation finds again: a list of operators, plain words and
    quoted words is read back token by token if and only if every single piece is readable. */
module PqfPieces {
  import opened Pieces
  import opened Chars
  import opened Pqf

  /** What is printed: an operator, a word as it is, a word or a result set name in quotes; or what
      should have been printed and was not. */
  datatype Piece =
    | Op(kind: Kind)
    | Plain(text: string)
    | Quoted(text: string)
    | SetName(text: string)
    | NoWord(text: string)
    | NoOp(kind: Kind)

  function OpWord(k: Kind): (w: string)
    ensures |w| >= 2
  {
    match k
    case And => "and"
    case Or => "or"
    case Not => "not"
    case Prox => "prox"
    case _ => "set"
  }

  function PieceText(p: Piece): string {
    match p
    case Op(k) => "@" + OpWord(k) + " "
    case Plain(t) => t + " "
    case Quoted(t) => "\"" + t + "\" "
    case SetName(t) => "\"" + t + "\" "
    case NoWord(_) => ""
    case NoOp(_) => ""
  }

  function Text(ps: seq<Piece>): string {
    if ps == [] then "" else PieceText(ps[0]) + Text(ps[1..])
  }

  predicate IsOperator(k: Kind) { k in {And, Or, Not, Prox, Set} }

  predicate Known(ps: seq<Piece>) {
    forall p <- ps :: p.Op? || p.NoOp? ==> IsOperator(p.kind)
  }

  /** The token is what the piece stands for. */
  predicate Matches(t: Token, p: Piece) {
    match p
    case Op(k) => t.kind == k
    case NoOp(k) => t.kind == k
    case SetName(n) => t.text == n
    case Plain(w) => t == Token(Term, w)
    case Quoted(w) => t == Token(Term, w)
    case NoWord(w) => t == Token(Term, w)
  }

  predicate MatchAll(ts: seq<Token>, ps: seq<Piece>) {
    |ts| == |ps| && forall k :: 0 <= k < |ps| ==> Matches(ts[k], ps[k])
  }

  // ---- readable pieces

  /** The separator does not occur, except behind a backslash, and no backslash is left at the end. */
  predicate Clean(t: string, sep: char) {
    t == "" ||
    (t[0] != sep && if t[0] == '\\' then |t| >= 2 && Clean(t[2..], sep) else Clean(t[1..], sep))
  }

  predicate Readable(p: Piece) {
    match p
    case Op(_) => true
    case Plain(t) =>
      && t != "" && t[0] != ' ' && Separator(t[0]) == ' ' && Clean(t, ' ')
      && !AttrStart(t, 0) && (t[0] == '@' ==> WordKind(t) == Term)
    case Quoted(t) => Clean(t, '\"') && !AttrStart(t, 0)
    case SetName(t) => Clean(t, '\"') && !AttrStart(t, 0)
    case NoWord(_) => false
    case NoOp(_) => false
  }

  predicate AllReadable(ps: seq<Piece>) { forall p <- ps :: Readable(p) }

  // ---- the scan over a piece

  /** A separator that the scan has passed is behind a backslash. */
  lemma {:induction false} ScanInside(s: string, i: nat, sep: char, k: nat)
    requires i <= |s| && i <= k < Scan(s, i, sep) && s[k] == sep
    ensures i < k && s[k - 1] == '\\'
    decreases |s| - i
  {
    if s[i] == '\\' && i + 1 < |s| {
      if k > i + 1 {
        ScanInside(s, i + 2, sep, k);
      }
    } else {
      ScanInside(s, i + 1, sep, k);
    }
  }

  lemma {:induction false} ScanClean(s: string, i: nat, t: string, sep: char)
    requires OccursAt(s, i, t + [sep]) && sep != '\\'
    ensures i <= |s| && (Scan(s, i, sep) == i + |t| <==> Clean(t, sep))
    decreases |t|
  {
    var u := t + [sep];
    assert s[i + 0] == u[0];
    if t != "" && t[0] != sep {
      if t[0] != '\\' {
        assert u == [t[0]] + (t[1..] + [sep]);
        OccursSplit(s, i, [t[0]], t[1..] + [sep]);
        ScanClean(s, i + 1, t[1..], sep);
      } else if |t| >= 2 {
        assert u == t[..2] + (t[2..] + [sep]);
        OccursSplit(s, i, t[..2], t[2..] + [sep]);
        ScanClean(s, i + 2, t[2..], sep);
      }
    }
  }

  /** The characters of a plain piece. */
  lemma PlainAt(s: string, a: nat, t: string)
    requires OccursAt(s, a, t + " ")
    ensures a + |t| < |s| && s[a + |t|] == ' ' && forall k :: 0 <= k < |t| ==> s[a + k] == t[k]
  {
    OccursSplit(s, a, t, " ");
    assert s[a + |t| + 0] == " "[0];
  }

  /** The characters of a quoted piece. */
  lemma QuotedAt(s: string, a: nat, t: string)
    requires OccursAt(s, a, "\"" + t + "\" ")
    ensures a + |t| + 2 < |s| && s[a] == '\"' && s[a + |t| + 1] == '\"' && s[a + |t| + 2] == ' '
    ensures forall k :: 0 <= k < |t| ==> s[a + 1 + k] == t[k]
  {
    OccursSplit(s, a, "\"" + t, "\" ");
    OccursSplit(s, a, "\"", t);
    assert s[a + 0] == "\""[0] && s[a + |"\"" + t| + 0] == "\" "[0] && s[a + |"\"" + t| + 1] == "\" "[1];
  }

  // ---- in step: the token begins where the piece begins

  /** Nothing is equal to itself moved by one place and followed by `c`, unless it is all `c`. */
  lemma {:induction false} Shifted(t: string, c: char)
    requires t != "" && t[|t| - 1] == c && forall k :: 0 <= k < |t| - 1 ==> t[k] == t[k + 1]
    ensures t[0] == c
  {
    if |t| > 1 {
      Shifted(t[1..], c);
    }
  }

  /** The same by two places. */
  lemma {:induction false} ShiftedTwice(t: string, c: char, d: char)
    requires |t| >= 2 && t[|t| - 2] == c && t[|t| - 1] == d && forall k :: 0 <= k < |t| - 2 ==> t[k] == t[k + 2]
    ensures t[1] == c || t[1] == d
  {
    if |t| > 3 {
      ShiftedTwice(t[2..], c, d);
      assert t[2..][1] == t[3] == t[1];
    }
  }

  lemma PlainInStep(s: string, a: nat, t: string)
    requires OccursAt(s, a, t + " ") && t != "" && t[0] != ' '
    ensures a < |s| && s[a] != ' '
    ensures OneToken(s, a).token == Token(Term, t) <==> Readable(Plain(t))
    ensures Readable(Plain(t)) ==> OneToken(s, a).next == a + |t| + 1
  {
    hide WordKind, Scan;
    PlainAt(s, a, t);
    assert s[a + 0] == t[0];
    if Separator(t[0]) != ' ' {
      PlainMoved(s, a, t);
    } else {
      assert s[a + 1] == if |t| > 1 then t[1] else ' ';
      assert AttrStart(s, a) <==> AttrStart(t, 0);
      ScanClean(s, a, t, ' ');
      assert s[a..a + |t|] == t;
    }
  }

  /** A token that begins with a quote or a brace does not give a plain piece back. */
  lemma PlainMoved(s: string, a: nat, t: string)
    requires OccursAt(s, a, t + " ") && t != "" && t[0] != ' ' && a < |s| && s[a] == t[0]
    requires Separator(t[0]) != ' '
    ensures OneToken(s, a).token != Token(Term, t)
  {
    hide WordKind, Scan;
    PlainAt(s, a, t);
    var e := Scan(s, a + 1, Separator(s[a]));
    if s[a + 1..e] == t {
      forall k | 0 <= k < |t| - 1 ensures t[k] == t[k + 1] { assert s[a + 1..e][k] == s[a + (k + 1)]; }
      assert s[a + 1..e][|t| - 1] == s[a + |t|];
      Shifted(t, ' ');
    }
  }

  lemma QuotedInStep(s: string, a: nat, t: string)
    requires OccursAt(s, a, "\"" + t + "\" ")
    ensures a < |s| && s[a] != ' '
    ensures OneToken(s, a).token.text == t <==> Readable(Quoted(t))
    ensures Readable(Quoted(t)) ==>
              OneToken(s, a) == Lexed(Token(Term, t), a + |t| + 2) && s[a + |t| + 2] == ' ' && a + |t| + 2 < |s|
  {
    hide WordKind, Scan;
    QuotedAt(s, a, t);
    assert "\"" + t + "\" " == "\"" + (t + "\"") + " ";
    OccursSplit(s, a, "\"" + (t + "\""), " ");
    OccursSplit(s, a, "\"", t + "\"");
    ScanClean(s, a + 1, t, '\"');
    assert s[a + 1..a + 1 + |t|] == t;
    assert |t| >= 1 ==> s[a + 1 + 0] == t[0];
    assert |t| >= 2 ==> s[a + 1 + 1] == t[1];
    assert AttrStart(s, a + 1) <==> AttrStart(t, 0);
    if AttrStart(s, a + 1) {
      assert OneToken(s, a).token.text == "@" && |t| >= 2;
    }
  }

  lemma OpInStep(s: string, a: nat, k: Kind)
    requires IsOperator(k) && OccursAt(s, a, "@" + OpWord(k) + " ")
    ensures a < |s| && s[a] != ' ' && OneToken(s, a).token.kind == k && OneToken(s, a).next == a + |OpWord(k)| + 2
  {
    hide Scan, OpWord, WordKind, OccursAt;
    var t := "@" + OpWord(k);
    OpLetters(k);
    PlainAt(s, a, t);
    assert s[a + 0] == t[0] && s[a + 1] == t[1];
    PlainClean(t);
    ScanClean(s, a, t, ' ');
    assert s[a..a + |t|] == t;
    OpKind(k);
  }

  lemma {:induction false} PlainClean(t: string)
    requires forall i :: 0 <= i < |t| ==> t[i] != ' ' && t[i] != '\\'
    ensures Clean(t, ' ')
  {
    if t != "" {
      PlainClean(t[1..]);
    }
  }

  lemma OpKind(k: Kind)
    requires IsOperator(k)
    ensures WordKind("@" + OpWord(k)) == k
  {
    var t := "@" + OpWord(k);
    if k == And {
      assert t[1..3] == "an" == "and"[..2];
    } else if k == Or {
      assert t[1..2] == "o" == "or"[..1];
    } else if k == Not {
      assert t[1..3] == "no" == "not"[..2] && "and"[..2][0] != 'n';
    } else if k == Prox {
      assert t[1..4] == "pro" == "prox"[..3] && "attr"[..3][0] != 'p';
    } else {
      assert t[1..3] == "se" == "set"[..2] && "and"[..2][0] != 's' && "not"[..2][0] != 's';
    }
  }

  /** An operator token is an '@' and at least two letters, not quoted. */
  lemma OpToken(s: string, x: nat)
    requires x < |s| && s[x] != ' ' && IsOperator(OneToken(s, x).token.kind)
    ensures Separator(s[x]) == ' ' && !AttrStart(s, x)
    ensures var t := OneToken(s, x).token; |t.text| == |OpWord(t.kind)| + 1
  {
    hide Scan;
  }

  // ---- out of step: the token begins behind the piece's first character

  /** A quoted blank: the one piece that could be read from its middle. */
  predicate QuotedBlank(s: string, a: nat) { OccursAt(s, a, "\" \" ") }

  lemma QuotedBlankAt(s: string, a: nat)
    requires QuotedBlank(s, a)
    ensures a + 3 < |s| && s[a] == '\"' && s[a + 1] == ' ' && s[a + 2] == '\"' && s[a + 3] == ' '
  {
    var p := "\" \" ";
    assert s[a + 0] == p[0] && s[a + 1] == p[1] && s[a + 2] == p[2] && s[a + 3] == p[3];
  }

  /** The next token begins behind the place `b` where the next piece begins. */
  predicate Late(s: string, x: nat, b: nat) {
    x > b && (QuotedBlank(s, b) ==> x >= b + 3)
  }

  /** What a token that is no attribute takes: its text from `b` to `e`, and the separator. */
  lemma TokenSpan(s: string, x: nat) returns (b: nat, e: nat)
    requires x < |s| && s[x] != ' ' && !(OneToken(s, x).token.kind == Attr && OneToken(s, x).token.text == "@")
    ensures var sep := Separator(s[x]);
            && b == (if sep == ' ' then x else x + 1) && b <= e <= |s| && e == Scan(s, b, sep)
            && OneToken(s, x).token.text == s[b..e]
            && OneToken(s, x).next == (if e < |s| then e + 1 else e)
            && (sep == ' ' ==> x < e)
  {
    hide WordKind;
    var sep := Separator(s[x]);
    b := if sep == ' ' then x else x + 1;
    e := Scan(s, b, sep);
  }

  /** Where the next token begins, from where this one ends. */
  lemma NextIsLate(s: string, n: nat, b: nat)
    requires n <= |s| && n > b && (QuotedBlank(s, b) ==> n != b + 1 && n != b + 2)
    ensures Late(s, SkipBlanks(s, n), b)
  {
  }

  lemma PlainLate(s: string, a: nat, t: string, x: nat)
    requires OccursAt(s, a, t + " ") && a < x < |s| && s[x] != ' ' && OneToken(s, x).token == Token(Term, t)
    ensures Late(s, SkipBlanks(s, OneToken(s, x).next), a + |t| + 1)
  {
    hide Scan, OneToken, OccursAt, QuotedBlank;
    PlainAt(s, a, t);
    var b, e := TokenSpan(s, x);
    var end := a + |t| + 1;
    assert |s[b..e]| == |t|;
    if Separator(s[x]) == ' ' {
      PlainUnquoted(s, a, t, x, e);
    }
    if QuotedBlank(s, end) {
      QuotedBlankAt(s, end);
    }
    NextIsLate(s, OneToken(s, x).next, end);
  }

  /** A token without quotes that begins behind the piece's first character ends behind the piece. */
  lemma PlainUnquoted(s: string, a: nat, t: string, x: nat, e: nat)
    requires a + |t| < |s| && s[a + |t|] == ' ' && forall k :: 0 <= k < |t| ==> s[a + k] == t[k]
    requires a < x < |s| && s[x] != ' ' && Separator(s[x]) == ' ' && e == Scan(s, x, ' ') && s[x..e] == t && t != ""
    ensures e > a + |t| && (e == |s| ==> e > a + |t| + 1)
    ensures QuotedBlank(s, a + |t| + 1) ==> e != a + |t| + 2
  {
    hide Scan;
    var end := a + |t| + 1;
    assert s[x..e][|t| - 1] == s[e - 1] && s[a + (|t| - 1)] == t[|t| - 1];
    if e == end && e == |s| {
      PassedBlank(s, x, end - 1);
    }
    if QuotedBlank(s, end) {
      QuotedBlankAt(s, end);
      if e == end + 1 && |t| >= 2 {
        PassedBlank(s, x, end - 1);
      }
    }
  }

  /** A blank inside an unquoted token is behind a backslash. */
  lemma PassedBlank(s: string, x: nat, k: nat)
    requires x < |s| && s[x] != ' ' && Separator(s[x]) == ' ' && x <= k < Scan(s, x, ' ') && s[k] == ' '
    ensures x < k && s[k - 1] == '\\'
  {
    ScanInside(s, x, ' ', k);
  }

  /** A separator inside a quoted token is behind a backslash. */
  lemma PassedQuote(s: string, x: nat, k: nat)
    requires x < |s| && s[x] == '\"' && x + 1 <= k < Scan(s, x + 1, '\"') && s[k] == '\"'
    ensures x + 1 < k && s[k - 1] == '\\'
  {
    ScanInside(s, x + 1, '\"', k);
  }

  /** The piece could only be read from its middle with text that repeats itself. */
  lemma QuotedTail(s: string, a: nat, t: string, x: nat, e: nat)
    requires OccursAt(s, a, "\"" + t + "\" ") && a < x < |s| && s[x] != ' ' && (t == " " ==> x >= a + 3)
    requires Separator(s[x]) != ' ' && e == Scan(s, x + 1, Separator(s[x])) && s[x + 1..e] == t
    ensures e > a + |t| + 2 && (e == |s| ==> e > a + |t| + 3)
    ensures e == a + |t| + 3 && s[e] == '\"' ==> Separator(s[x]) != '\"'
  {
    hide OccursAt, Scan;
    QuotedAt(s, a, t);
    var end := a + |t| + 3;
    assert |t| > 0 ==> s[end - 3] == s[a + 1 + (|t| - 1)] == t[|t| - 1];
    assert |t| > 0 ==> s[x + 1..e][|t| - 1] == s[e - 1];
    if e == end && |t| >= 2 {
      if s[x] == '\"' {
        PassedQuote(s, x, end - 2);
      } else if e == |s| {
        TwoBack(s, a, t, x, e);
      }
    }
  }

  /** A text that begins two places late and ends in the closing quote and the blank repeats them. */
  lemma TwoBack(s: string, a: nat, t: string, x: nat, e: nat)
    requires |t| >= 2 && e <= |s| && x == a + 2 && e == a + |t| + 3 && s[x + 1..e] == t
    requires s[e - 2] == '\"' && s[e - 1] == ' ' && forall k :: 0 <= k < |t| ==> s[a + 1 + k] == t[k]
    ensures s[x] == '\"' || s[x] == ' '
  {
    forall k | 0 <= k < |t| - 2 ensures t[k] == t[k + 2] {
      assert s[x + 1..e][k] == s[a + 1 + (k + 2)];
    }
    assert s[x + 1..e][|t| - 2] == s[e - 2] && s[x + 1..e][|t| - 1] == s[e - 1];
    assert s[x] == s[a + 1 + 1];
    ShiftedTwice(t, '\"', ' ');
  }

  lemma QuotedLate(s: string, a: nat, t: string, x: nat)
    requires OccursAt(s, a, "\"" + t + "\" ") && a < x < |s| && s[x] != ' ' && (t == " " ==> x >= a + 3)
    requires var token := OneToken(s, x).token; token.text == t && !(token.kind == Attr && token.text == "@")
    ensures Late(s, SkipBlanks(s, OneToken(s, x).next), a + |t| + 3)
  {
    hide Scan, OneToken, OccursAt, QuotedBlank;
    QuotedAt(s, a, t);
    var b, e := TokenSpan(s, x);
    var end := a + |t| + 3;
    assert |s[b..e]| == |t|;
    if Separator(s[x]) == ' ' {
      QuotedUnquoted(s, a, t, x, e);
    } else {
      QuotedTail(s, a, t, x, e);
    }
    if QuotedBlank(s, end) {
      QuotedBlankAt(s, end);
    }
    NextIsLate(s, OneToken(s, x).next, end);
  }

  /** The same for a token without quotes. */
  lemma QuotedUnquoted(s: string, a: nat, t: string, x: nat, e: nat)
    requires OccursAt(s, a, "\"" + t + "\" ") && a < x < |s| && s[x] != ' '
    requires Separator(s[x]) == ' ' && e == Scan(s, x, ' ') && s[x..e] == t && t != ""
    ensures e >= a + |t| + 3 && (e == |s| ==> e > a + |t| + 3)
    ensures QuotedBlank(s, a + |t| + 3) ==> e != a + |t| + 3 && e != a + |t| + 4
  {
    hide OccursAt, Scan;
    QuotedAt(s, a, t);
    var end := a + |t| + 3;
    if e == end - 1 {
      OneBack(s, a, t, x, e);
    }
    if (e == end && e == |s| && |t| >= 2) || (e == end + 1 && |t| >= 2 && QuotedBlank(s, end)) {
      PassedBlank(s, x, end - 1);
    }
    if QuotedBlank(s, end) {
      QuotedBlankAt(s, end);
    }
  }

  /** A text that begins one place late and ends in the closing quote is all quotes. */
  lemma OneBack(s: string, a: nat, t: string, x: nat, e: nat)
    requires t != "" && e <= |s| && x == a + 2 && e == a + |t| + 2 && s[x..e] == t && s[e - 1] == '\"'
    requires forall k :: 0 <= k < |t| ==> s[a + 1 + k] == t[k]
    ensures s[x] == '\"'
  {
    forall k | 0 <= k < |t| - 1 ensures t[k] == t[k + 1] { assert s[x..e][k] == s[a + 1 + (k + 1)]; }
    assert s[x..e][|t| - 1] == s[e - 1];
    assert s[x..e][0] == s[x];
    Shifted(t, '\"');
  }

  /** A name "@" may also be taken from the beginning of an attribute. */
  lemma NameFromAttr(s: string, a: nat, x: nat)
    requires OccursAt(s, a, "\"" + "@" + "\" ") && a < x < |s| && s[x] != ' '
    requires AttrStart(s, if Separator(s[x]) == ' ' then x else x + 1)
    ensures Late(s, SkipBlanks(s, OneToken(s, x).next), a + 4)
  {
    hide OccursAt;
    QuotedAt(s, a, "@");
    assert s[a + 1 + 0] == "@"[0];
    if QuotedBlank(s, a + 4) {
      QuotedBlankAt(s, a + 4);
    }
    NextIsLate(s, OneToken(s, x).next, a + 4);
  }

  lemma OpLate(s: string, a: nat, k: Kind, x: nat)
    requires IsOperator(k) && OccursAt(s, a, "@" + OpWord(k) + " ")
    requires a < x < |s| && s[x] != ' ' && OneToken(s, x).token.kind == k
    ensures Late(s, SkipBlanks(s, OneToken(s, x).next), a + |OpWord(k)| + 2)
  {
    hide Scan, OneToken, OccursAt, OpWord, QuotedBlank;
    var t := "@" + OpWord(k);
    PlainAt(s, a, t);
    OpToken(s, x);
    var b, e := TokenSpan(s, x);
    var end := a + |t| + 1;
    OpEnds(s, a, k);
    PassedBlankOr(s, x, end - 1);
    if QuotedBlank(s, end) {
      QuotedBlankAt(s, end);
    }
    NextIsLate(s, OneToken(s, x).next, end);
  }

  lemma OpEnds(s: string, a: nat, k: Kind)
    requires IsOperator(k) && OccursAt(s, a, "@" + OpWord(k) + " ")
    ensures 'a' <= s[a + |OpWord(k)|] <= 'z'
  {
    hide OpWord;
    var t := "@" + OpWord(k) + " ";
    OpLetters(k);
    assert s[a + |OpWord(k)|] == t[|OpWord(k)|];
  }

  lemma OpLetters(k: Kind)
    ensures forall i :: 0 <= i < |OpWord(k)| ==> 'a' <= OpWord(k)[i] <= 'z'
  {
  }

  /** The scan does not pass a blank without a backslash in front. */
  lemma PassedBlankOr(s: string, x: nat, k: nat)
    requires x < |s| && s[x] != ' ' && Separator(s[x]) == ' ' && k < |s| && s[k] == ' '
    ensures x <= k < Scan(s, x, ' ') ==> x < k && s[k - 1] == '\\'
  {
    if x <= k < Scan(s, x, ' ') {
      PassedBlank(s, x, k);
    }
  }

  /** A token taken for a piece that was not printed. */
  lemma MissingLate(s: string, a: nat, x: nat, p: Piece)
    requires a <= x < |s| && s[x] != ' ' && Matches(OneToken(s, x).token, p)
    requires p.NoWord? || (p.NoOp? && IsOperator(p.kind))
    ensures Late(s, SkipBlanks(s, OneToken(s, x).next), a)
  {
    hide Scan, OneToken, OccursAt, OpWord;
    if p.NoOp? {
      OpToken(s, x);
    }
    var b, e := TokenSpan(s, x);
    if QuotedBlank(s, a) {
      QuotedBlankAt(s, a);
      if x == a {
        FirstQuote(s, a);
      }
    }
    NextIsLate(s, OneToken(s, x).next, a);
  }

  lemma FirstQuote(s: string, a: nat)
    requires QuotedBlank(s, a) && a + 3 < |s|
    ensures Scan(s, a + 1, '\"') == a + 2
  {
    QuotedBlankAt(s, a);
  }

  /** A piece taken from behind its beginning leaves the next one behind its beginning. */
  lemma LateStep(s: string, a: nat, x: nat, p: Piece)
    requires OccursAt(s, a, PieceText(p)) && a <= x < |s| && s[x] != ' ' && Matches(OneToken(s, x).token, p)
    requires p.Op? || p.NoOp? ==> IsOperator(p.kind)
    requires p.NoWord? || p.NoOp? || Late(s, x, a)
    ensures Late(s, SkipBlanks(s, OneToken(s, x).next), a + |PieceText(p)|)
  {
    hide OneToken, OccursAt, Late, QuotedBlank, OpWord, AttrStart;
    assert Late(s, x, a) ==> x > a && (QuotedBlank(s, a) ==> x >= a + 3) by { LateIs(s, x, a); }
    match p
    case Op(k) => OpLate(s, a, k, x);
    case Plain(t) => PlainLate(s, a, t, x);
    case Quoted(t) =>
      BlankPiece(s, a, t);
      QuotedLate(s, a, t, x);
    case SetName(t) =>
      BlankPiece(s, a, t);
      if OneToken(s, x).token == Token(Attr, "@") {
        AttrToken(s, x);
        NameFromAttr(s, a, x);
      } else {
        QuotedLate(s, a, t, x);
      }
    case NoWord(_) => MissingLate(s, a, x, p);
    case NoOp(_) => MissingLate(s, a, x, p);
  }

  lemma BlankPiece(s: string, a: nat, t: string)
    requires OccursAt(s, a, "\"" + t + "\" ")
    ensures t == " " ==> QuotedBlank(s, a)
  {
    assert t == " " ==> "\"" + t + "\" " == "\" \" ";
  }

  lemma LateIs(s: string, x: nat, a: nat)
    ensures Late(s, x, a) <==> x > a && (QuotedBlank(s, a) ==> x >= a + 3)
  {
  }

  lemma AttrToken(s: string, x: nat)
    requires x < |s| && s[x] != ' ' && OneToken(s, x).token == Token(Attr, "@")
    ensures AttrStart(s, if Separator(s[x]) == ' ' then x else x + 1)
  {
  }

  // ---- the theorem

  lemma LexStep(s: string, i: nat)
    requires i <= |s|
    ensures var x := SkipBlanks(s, i);
            Lex(s, i) == if x == |s| then [] else [OneToken(s, x).token] + Lex(s, OneToken(s, x).next)
  {
  }

  lemma MatchStep(t: Token, ts: seq<Token>, p: Piece, ps: seq<Piece>)
    ensures MatchAll([t] + ts, [p] + ps) <==> Matches(t, p) && MatchAll(ts, ps)
  {
    hide Matches;
    var us, qs := [t] + ts, [p] + ps;
    if MatchAll(us, qs) {
      assert Matches(us[0], qs[0]);
      forall k | 0 <= k < |ps| ensures Matches(ts[k], ps[k]) { assert Matches(us[k + 1], qs[k + 1]); }
    }
  }

  /** Out of step once, out of step to the end: something is always missing. */
  lemma {:induction false} NeverCaughtUp(s: string, y: nat, a: nat, ps: seq<Piece>)
    requires y <= |s| && a <= |s| && s[a..] == Text(ps) && Late(s, SkipBlanks(s, y), a) && Known(ps)
    ensures !MatchAll(Lex(s, y), ps)
    decreases |ps|
  {
    hide OneToken, Matches, Late, PieceText, OccursAt, Lex, Known, MatchAll, Text;
    LateIs(s, SkipBlanks(s, y), a);
    LexStep(s, y);
    EmptyPieces();
    var x := SkipBlanks(s, y);
    TextEnd(s, a, ps);
    if ps != [] {
      NoneMatch(ps);
    }
    if ps != [] && x < |s| {
      KnownStep(ps[0], ps[1..]);
      SplitFirst(s, a, ps);
      var token, p := OneToken(s, x).token, ps[0];
      MatchStep(token, Lex(s, OneToken(s, x).next), p, ps[1..]);
      assert [p] + ps[1..] == ps;
      if Matches(token, p) {
        LateStep(s, a, x, p);
        NeverCaughtUp(s, OneToken(s, x).next, a + |PieceText(p)|, ps[1..]);
      }
    }
  }

  lemma TextEnd(s: string, a: nat, ps: seq<Piece>)
    requires a <= |s| && s[a..] == Text(ps)
    ensures ps == [] ==> a == |s|
  {
    hide PieceText;
  }

  lemma SplitFirst(s: string, a: nat, ps: seq<Piece>)
    requires ps != [] && a <= |s| && s[a..] == Text(ps)
    ensures var b := a + |PieceText(ps[0])|;
            OccursAt(s, a, PieceText(ps[0])) && b <= |s| && s[b..] == Text(ps[1..])
  {
    hide PieceText;
    var t := PieceText(ps[0]);
    forall k | 0 <= k < |t| ensures s[a + k] == t[k] { assert s[a..][k] == s[a + k]; }
    assert s[a + |t|..] == s[a..][|t|..];
  }

  /** A piece in step: readable if and only if its token is found and the next piece follows. */
  lemma InStep(s: string, a: nat, p: Piece)
    requires OccursAt(s, a, PieceText(p)) && (p.Op? || p.NoOp? ==> IsOperator(p.kind)) && a <= |s|
    ensures var x := SkipBlanks(s, a);
            && (Readable(p) ==>
                  x < |s| && Matches(OneToken(s, x).token, p) &&
                  SkipBlanks(s, OneToken(s, x).next) == SkipBlanks(s, a + |PieceText(p)|))
            && (!Readable(p) && x < |s| && Matches(OneToken(s, x).token, p) ==>
                  p.NoWord? || p.NoOp? || Late(s, x, a))
  {
    hide OneToken, OccursAt;
    match p
    case Op(k) => OpInStep(s, a, k);
    case Plain(t) =>
      PlainAt(s, a, t);
      if t != "" && t[0] != ' ' {
        PlainInStep(s, a, t);
      } else {
        LateStart(s, a, t);
      }
    case Quoted(t) => QuotedInStep(s, a, t);
    case SetName(t) => QuotedInStep(s, a, t);
    case NoWord(_) =>
    case NoOp(_) =>
  }

  lemma LateStart(s: string, a: nat, t: string)
    requires OccursAt(s, a, t + " ") && (t == "" || t[0] == ' ')
    ensures a <= |s| && Late(s, SkipBlanks(s, a), a)
  {
    PlainAt(s, a, t);
    assert s[a + 0] == ' ';
    if QuotedBlank(s, a) {
      QuotedBlankAt(s, a);
    }
  }

  lemma EmptyPieces()
    ensures Text([]) == "" && AllReadable([]) && MatchAll([], [])
  {
  }

  lemma NoneMatch(ps: seq<Piece>)
    requires ps != []
    ensures !MatchAll([], ps)
  {
  }

  lemma AllReadableStep(p: Piece, ps: seq<Piece>)
    ensures AllReadable([p] + ps) <==> Readable(p) && AllReadable(ps)
  {
    hide Readable;
    assert p in [p] + ps && forall q <- ps :: q in [p] + ps;
  }

  lemma KnownStep(p: Piece, ps: seq<Piece>)
    ensures Known([p] + ps) <==> (p.Op? || p.NoOp? ==> IsOperator(p.kind)) && Known(ps)
  {
    assert p in [p] + ps && forall q <- ps :: q in [p] + ps;
  }

  lemma LexEnd(s: string, a: nat)
    requires a == |s|
    ensures Lex(s, a) == []
  {
  }

  lemma ReadableFirst(s: string, a: nat, p: Piece, ps: seq<Piece>)
    requires a <= |s| && OccursAt(s, a, PieceText(p)) && (p.Op? || p.NoOp? ==> IsOperator(p.kind)) && Readable(p)
    requires a + |PieceText(p)| <= |s|
    ensures MatchAll(Lex(s, a), [p] + ps) <==> MatchAll(Lex(s, a + |PieceText(p)|), ps)
  {
    hide OneToken, Matches, Late, PieceText, OccursAt, Lex, Readable, MatchAll, SkipBlanks;
    InStep(s, a, p);
    var x := SkipBlanks(s, a);
    var n := OneToken(s, x).next;
    LexStep(s, a);
    MatchStep(OneToken(s, x).token, Lex(s, n), p, ps);
    LexStep(s, n);
    LexStep(s, a + |PieceText(p)|);
  }

  lemma UnreadableFirst(s: string, a: nat, p: Piece, ps: seq<Piece>)
    requires a <= |s| && OccursAt(s, a, PieceText(p)) && (p.Op? || p.NoOp? ==> IsOperator(p.kind)) && !Readable(p)
    requires a + |PieceText(p)| <= |s| && s[a + |PieceText(p)|..] == Text(ps) && Known(ps)
    ensures !MatchAll(Lex(s, a), [p] + ps)
  {
    hide OneToken, Matches, Late, PieceText, OccursAt, Lex, Readable, Known, MatchAll, Text, SkipBlanks;
    InStep(s, a, p);
    var x := SkipBlanks(s, a);
    LexStep(s, a);
    if x == |s| {
      NoneMatch([p] + ps);
    } else {
      var n := OneToken(s, x).next;
      MatchStep(OneToken(s, x).token, Lex(s, n), p, ps);
      if Matches(OneToken(s, x).token, p) {
        LateStep(s, a, x, p);
        NeverCaughtUp(s, n, a + |PieceText(p)|, ps);
      }
    }
  }

  /** Every list of pieces: its text is read back piece by piece if and only if each piece is readable. */
  lemma {:induction false} ReadExactly(s: string, a: nat, ps: seq<Piece>)
    requires a <= |s| && s[a..] == Text(ps) && Known(ps)
    ensures MatchAll(Lex(s, a), ps) <==> AllReadable(ps)
    decreases |ps|
  {
    hide PieceText, OccursAt, Lex, Readable, AllReadable, Known, MatchAll, Text;
    if ps == [] {
      EmptyPieces();
      assert s[a..] == "";
      LexEnd(s, a);
    } else {
      SplitFirst(s, a, ps);
      var p, rest := ps[0], ps[1..];
      assert [p] + rest == ps;
      KnownStep(p, rest);
      AllReadableStep(p, rest);
      if Readable(p) {
        ReadableFirst(s, a, p, rest);
        ReadExactly(s, a + |PieceText(p)|, rest);
      } else {
        UnreadableFirst(s, a, p, rest);
      }
    }
  }
}
