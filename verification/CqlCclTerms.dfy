/** Terms on their way from CQL through CCL text: what pr_term (src/cql2ccl.c) prints, and what append_term
    (src/cclfind.c) makes of it. */
module CqlCclTerms {
  import opened CqlToCcl
  import opened CclFind

  /** No bare quotes, no wildcards, and every backslash escapes a character. */
  predicate WellEscaped(s: string) {
    s == ""
    || (if s[0] == '\\' then |s| >= 2 && WellEscaped(s[2..])
        else s[0] != '\"' && s[0] != '*' && s[0] != '?' && WellEscaped(s[1..]))
  }

  /** The term itself. */
  function Unescape(s: string): string
    requires WellEscaped(s)
  {
    if s == "" then "" else if s[0] == '\\' then [s[1]] + Unescape(s[2..]) else [s[0]] + Unescape(s[1..])
  }

  /** Escapes are kept only for quotes and backslashes. */
  predicate StaysEscaped(c: char) {
    c == '\"' || c == '\\'
  }

  /** What is printed between the quotes. */
  function Body(s: string): string
    requires WellEscaped(s)
  {
    if s == "" then ""
    else if s[0] == '\\' then (if StaysEscaped(s[1]) then ['\\', s[1]] else [s[1]]) + Body(s[2..])
    else [s[0]] + Body(s[1..])
  }

  function Quoted(s: string): string
    requires WellEscaped(s)
  {
    "\"" + Body(s) + "\""
  }

  // ---- pr_term

  /** Where a word ends: at the end of the term, or at the first blank that is not escaped. */
  function WordEnd(s: string, i: nat, split: bool): (e: nat)
    requires i <= |s|
    ensures i <= e <= |s| && (!split ==> e == |s|)
    decreases |s| - i
  {
    if i == |s| || (s[i] == ' ' && split) then i
    else if s[i] == '\\' && i + 1 < |s| then WordEnd(s, i + 2, split)
    else WordEnd(s, i + 1, split)
  }

  lemma {:induction false} PrTermFromIs(s: string, i: nat, split: bool)
    requires i <= |s| && WellEscaped(s[i..WordEnd(s, i, split)])
    ensures PrTermFrom(s, i, split, true) == (Body(s[i..WordEnd(s, i, split)]) + "\"", WordEnd(s, i, split))
    decreases |s| - i
  {
    var e := WordEnd(s, i, split);
    if i == |s| || (s[i] == ' ' && split) {
      assert s[i..e] == "";
      assert "" + "\"" == "\"";
    } else {
      hide Body, WellEscaped, PrStep;
      var step := PrStep(s, i, true);
      StepBody(s, i, split);
      PrTermFromIs(s, step.next, split);
      assert step.text + (Body(s[step.next..e]) + "\"") == (step.text + Body(s[step.next..e])) + "\"";
    }
  }

  /** One step of pr_term inside quotes prints one item of the body. */
  lemma StepBody(s: string, i: nat, split: bool)
    requires i < |s| && !(s[i] == ' ' && split) && WellEscaped(s[i..WordEnd(s, i, split)])
    ensures
      var e, step := WordEnd(s, i, split), PrStep(s, i, true);
      && step.next <= e && WordEnd(s, step.next, split) == e
      && WellEscaped(s[step.next..e]) && Body(s[i..e]) == step.text + Body(s[step.next..e])
      && step.quoted
      && PrStep(s, i, false) == Step("\"" + step.text, step.next, true)
  {
    WordEndGrows(s, i, split);
    var e, n := WordEnd(s, i, split), PrStep(s, i, true).next;
    var w := s[i..e];
    assert w[0] == s[i] && w[n - i..] == s[n..e];
    if s[i] == '\\' {
      assert w[1] == s[i + 1];
      QuoteText("", s[i + 1]);
      QuoteText("\\", s[i + 1]);
    } else {
      QuoteText("", s[i]);
    }
  }

  lemma QuoteText(esc: string, c: char)
    ensures Quote(true) + esc + [c] == "\"" + (esc + [c]) && Quote(false) + esc + [c] == esc + [c]
    ensures Quote(true) + [c] == "\"" + [c] && Quote(false) + [c] == [c] && "" + [c] == [c]
    ensures "\\" + [c] == ['\\', c]
  {
  }

  lemma WordEndGrows(s: string, i: nat, split: bool)
    requires i < |s| && !(s[i] == ' ' && split)
    ensures i < WordEnd(s, i, split)
    ensures s[i] == '\\' && i + 1 < |s| ==> i + 2 <= WordEnd(s, i, split)
  {
  }

  /** pr_term puts a well-escaped word in quotes. */
  lemma PrTermIs(s: string, i: nat, split: bool)
    requires i <= |s| && WellEscaped(s[i..WordEnd(s, i, split)])
    ensures PrTerm(s, i, split) == (Quoted(s[i..WordEnd(s, i, split)]), WordEnd(s, i, split))
  {
    if i == |s| || (s[i] == ' ' && split) {
      assert s[i..i] == "" && "\"" + "" + "\"" == "" + "\"\"";
    } else {
      PrTermOpens(s, i, split);
    }
  }

  lemma PrTermOpens(s: string, i: nat, split: bool)
    requires i < |s| && !(s[i] == ' ' && split) && WellEscaped(s[i..WordEnd(s, i, split)])
    ensures PrTerm(s, i, split) == (Quoted(s[i..WordEnd(s, i, split)]), WordEnd(s, i, split))
  {
    hide Body, WellEscaped, PrStep, WordEnd;
    var e := WordEnd(s, i, split);
    StepBody(s, i, split);
    var open := PrStep(s, i, true);
    PrTermFromIs(s, open.next, split);
    var rest := Body(s[open.next..e]);
    assert ("\"" + open.text) + (rest + "\"") == "\"" + (open.text + rest) + "\"";
  }

  // ---- append_term

  /** append_term looks only at the character before. After an escaped backslash it therefore misreads
      a following escape, or the closing quote: every such place adds one character to the term. */
  function Misread(s: string, afterBackslash: bool): nat
    requires WellEscaped(s)
  {
    if s == "" then (if afterBackslash then 1 else 0)
    else if s[0] == '\\' && StaysEscaped(s[1]) then
      (if afterBackslash then 1 else 0) + Misread(s[2..], s[1] == '\\')
    else if s[0] == '\\' then Misread(s[2..], false)
    else Misread(s[1..], false)
  }

  /** No escaped backslash is at the end or in front of an escaped quote or backslash. */
  predicate BackslashesSafe(s: string, afterBackslash: bool)
    requires WellEscaped(s)
  {
    if s == "" then !afterBackslash
    else if s[0] == '\\' && StaysEscaped(s[1]) then !afterBackslash && BackslashesSafe(s[2..], s[1] == '\\')
    else if s[0] == '\\' then BackslashesSafe(s[2..], false)
    else BackslashesSafe(s[1..], false)
  }

  lemma {:induction false} SafeIsNoMisread(s: string, after: bool)
    requires WellEscaped(s)
    ensures BackslashesSafe(s, after) <==> Misread(s, after) == 0
    decreases |s|
  {
    if s != "" {
      if s[0] == '\\' {
        SafeIsNoMisread(s[2..], StaysEscaped(s[1]) && s[1] == '\\');
      } else {
        SafeIsNoMisread(s[1..], false);
      }
    }
  }

  /** Inside the quotes: how long the copy gets, and that it is the term if nothing is misread. */
  lemma {:induction false} AppendBody(u: string, j: nat, s: string)
    requires WellEscaped(s) && 0 < j <= |u| && u[j..] == Body(s) + "\""
    ensures
      var after := u[j - 1] == '\\';
      var r := Append(u, j, true);
      && r.0 && |r.1| == |Unescape(s)| + Misread(s, after)
      && (Misread(s, after) == 0 ==> r.1 == Unescape(s))
    decreases |s|
  {
    if s == "" {
      assert u[j..] == "\"" && u[j..][0] == u[j] && |u| == j + 1;
      assert Append(u, j + 1, true) == (true, "") && Append(u, j + 1, false) == (true, "");
    } else if s[0] == '\\' && StaysEscaped(s[1]) {
      var b := Body(s[2..]) + "\"";
      assert Body(s) + "\"" == ['\\', s[1]] + b;
      TwoMore(u, j, '\\', s[1], b);
      AppendBody(u, j + 2, s[2..]);
    } else {
      var c, rest := if s[0] == '\\' then s[1] else s[0], if s[0] == '\\' then s[2..] else s[1..];
      var b := Body(rest) + "\"";
      assert Body(s) + "\"" == [c] + b;
      OneMore(u, j, c, b);
      AppendBody(u, j + 1, rest);
    }
  }

  lemma OneMore(u: string, j: nat, c: char, b: string)
    requires j <= |u| && u[j..] == [c] + b
    ensures j < |u| && u[j] == c && u[j + 1..] == b
  {
    assert u[j..][0] == u[j] && u[j..][1..] == u[j + 1..];
  }

  lemma TwoMore(u: string, j: nat, c: char, d: char, b: string)
    requires j <= |u| && u[j..] == [c, d] + b
    ensures j + 1 < |u| && u[j] == c && u[j + 1] == d && u[j + 2..] == b
  {
    assert u[j..][0] == u[j] && u[j..][1] == u[j + 1] && u[j..][2..] == u[j + 2..];
  }

  /** A quoted term is always accepted, and comes back as itself if and only if its escaped backslashes
      are safe. */
  lemma AppendQuoted(s: string)
    requires WellEscaped(s)
    ensures
      var r := Append(Quoted(s), 0, false);
      && r.0 && (r.1 == Unescape(s) <==> BackslashesSafe(s, false))
      && (if BackslashesSafe(s, false) then |r.1| == |Unescape(s)| else |r.1| > |Unescape(s)|)
  {
    var u := Quoted(s);
    assert u[1..] == Body(s) + "\"" && u[0] == '\"';
    AppendBody(u, 1, s);
    SafeIsNoMisread(s, false);
  }

  /** A term that ends in an escaped backslash does not come back. */
  lemma UnsafeTerm() returns (s: string)
    ensures WellEscaped(s) && Unescape(s) == "a\\" && Append(Quoted(s), 0, false).1 != Unescape(s)
  {
    s := "a\\\\";
    assert s[1..] == "\\\\" && "\\\\"[2..] == "";
    assert Unescape("\\\\") == "\\";
    assert !BackslashesSafe("\\\\", false);
    AppendQuoted(s);
  }
}
