/** What an operand of prefix notation stands for: the reader unescapes it, src/pquery.c:125-186, and what
    emit_term prints, src/cqltransform.c:746-792, is then the term of the query. */
module PqfTerms {
  import opened Chars
  import opened Pieces
  import opened Pqf
  import opened CqlToPqf

  // ---- the reader

  const LETTERS: map<char, char> := map['t' := '\t', 'n' := '\n', 'r' := '\r', 'f' := 12 as char]

  /** The octet that digits stand for. */
  function Octet(digits: string, base: nat): char { (DigitsFrom(digits, 0, base, 0) % 256) as char }

  /** escape_string: what a backslash and the characters behind it stand for, and how many they are. */
  datatype Escaped = Escaped(out: string, length: nat)

  function EscapeAt(t: string, i: nat): (r: Escaped)
    requires i < |t|
    ensures 1 <= r.length && i + r.length <= |t|
  {
    if t[i] != '\\' || i + 1 == |t| then Escaped([t[i]], 1)
    else
      var c := t[i + 1];
      if c in LETTERS then Escaped([LETTERS[c]], 2)
      else if c == 'x' then
        if i + 4 <= |t| then Escaped([Octet(t[i + 2..i + 4], 16)], 4) else Escaped("", 2)
      else if '0' <= c <= '3' then
        if i + 4 <= |t| then Escaped([Octet(t[i + 1..i + 4], 8)], 4) else Escaped("", 2)
      else Escaped([c], 2)
  }

  function Unescape(t: string, i: nat): string
    requires i <= |t|
    decreases |t| - i
  {
    if i == |t| then "" else EscapeAt(t, i).out + Unescape(t, i + EscapeAt(t, i).length)
  }

  method EscapeString(t: string) returns (out: string)
    ensures out == Unescape(t, 0)
  {
    hide Unescape;
    out := "";
    var i := 0;
    while i < |t|
      invariant i <= |t| && out + Unescape(t, i) == Unescape(t, 0)
      decreases |t| - i
    {
      UnescapeStep(t, i);
      ghost var e := EscapeAt(t, i);
      Regroup(out, e.out, Unescape(t, i + e.length));
      var add;
      add, i := OneEscape(t, i);
      out := out + add;
    }
    UnescapeStep(t, i);
  }

  /** One turn of its loop: what is added, and where the next turn begins. */
  method OneEscape(t: string, start: nat) returns (add: string, i: nat)
    requires start < |t|
    ensures start < i && Escaped(add, i - start) == EscapeAt(t, start)
  {
    hide Octet;
    i := start;
    if t[i] == '\\' && i + 1 < |t| {
      i := i + 1;
      if t[i] in LETTERS {
        add := [LETTERS[t[i]]];
      } else if t[i] == 'x' {
        if i + 3 <= |t| {
          add := [Octet(t[i + 1..i + 3], 16)];
          i := i + 2;
        } else {
          add := "";
        }
      } else if '0' <= t[i] <= '3' {
        if i + 3 <= |t| {
          add := [Octet(t[i..i + 3], 8)];
          i := i + 2;
        } else {
          add := "";
        }
      } else {
        add := [t[i]];
      }
    } else {
      add := [t[i]];
    }
    i := i + 1;
  }

  lemma UnescapeStep(t: string, i: nat)
    requires i <= |t|
    ensures i == |t| ==> Unescape(t, i) == "" && "" + Unescape(t, i) == ""
    ensures i < |t| ==> var e := EscapeAt(t, i); Unescape(t, i) == e.out + Unescape(t, i + e.length)
  {
    hide EscapeAt;
  }

  lemma {:induction false} UnescapeShift(s: string, i: nat, k: nat)
    requires i + k <= |s|
    ensures Unescape(s, i + k) == Unescape(s[i..], k)
    decreases |s| - i - k
  {
    hide Octet;
    if i + k < |s| {
      var e := EscapeAt(s, i + k);
      SameEscape(s, i, k);
      UnescapeShift(s, i, k + e.length);
    }
  }

  lemma SameEscape(s: string, i: nat, k: nat)
    requires i + k < |s|
    ensures EscapeAt(s, i + k) == EscapeAt(s[i..], k)
  {
    hide Octet;
    var t := s[i..];
    assert t[k] == s[i + k] && (k + 1 < |t| ==> t[k + 1] == s[i + k + 1]);
    if k + 4 <= |t| { assert t[k + 2..k + 4] == s[i + k + 2..i + k + 4] && t[k + 1..k + 4] == s[i + k + 1..i + k + 4]; }
  }

  /** A character that a backslash does not change. */
  predicate IsInert(c: char) { c !in LETTERS && c != 'x' && !('0' <= c <= '3') }

  lemma PairRead(c: char, rest: string)
    requires IsInert(c)
    ensures Unescape(['\\', c] + rest, 0) == [c] + Unescape(rest, 0)
  {
    hide Octet;
    var s := ['\\', c] + rest;
    UnescapeShift(s, 2, 0);
    assert s[2..] == rest;
    assert EscapeAt(s, 0) == Escaped([c], 2);
  }

  lemma CharRead(c: char, rest: string)
    requires c != '\\' || rest == ""
    ensures Unescape([c] + rest, 0) == [c] + Unescape(rest, 0)
  {
    hide Octet;
    var s := [c] + rest;
    UnescapeShift(s, 1, 0);
    assert s[1..] == rest;
    assert EscapeAt(s, 0) == Escaped([c], 1);
  }

  /** The other escapes: a letter, two hexadecimal digits, or three octal ones. */
  datatype Code = Letter(c: char) | Hex(h: char, l: char) | Octal(a: char, b: char, c: char)

  predicate IsCode(x: Code) {
    match x
    case Letter(c) => c in "tnrf"
    case Hex(h, l) => DigitOf(h) < 16 && DigitOf(l) < 16
    case Octal(a, b, c) => '0' <= a <= '3' && DigitOf(b) < 8 && DigitOf(c) < 8
  }

  function CodeText(x: Code): string {
    match x
    case Letter(c) => ['\\', c]
    case Hex(h, l) => ['\\', 'x', h, l]
    case Octal(a, b, c) => ['\\', a, b, c]
  }

  function CodeValue(x: Code): char
    requires IsCode(x)
  {
    match x
    case Letter(c) => if c == 't' then '\t' else if c == 'n' then '\n' else if c == 'r' then '\r' else 12 as char
    case Hex(h, l) => (16 * DigitOf(h) + DigitOf(l)) as char
    case Octal(a, b, c) => (64 * (a as int - '0' as int) + 8 * DigitOf(b) + DigitOf(c)) as char
  }

  /** Each of them stands for one octet. */
  lemma CodeRead(x: Code, rest: string)
    requires IsCode(x)
    ensures Unescape(CodeText(x) + rest, 0) == [CodeValue(x)] + Unescape(rest, 0)
  {
    hide Unescape, Octet;
    var s, n := CodeText(x) + rest, |CodeText(x)|;
    UnescapeStep(s, 0);
    UnescapeShift(s, n, 0);
    assert s[n..] == rest;
    match x
    case Letter(c) =>
    case Hex(h, l) =>
      assert s[2..4] == [h, l];
      OctetOfTwo(h, l);
    case Octal(a, b, c) =>
      assert s[1..4] == [a, b, c];
      OctetOfThree(a, b, c);
  }

  lemma OctetOfTwo(h: char, l: char)
    requires DigitOf(h) < 16 && DigitOf(l) < 16
    ensures Octet([h, l], 16) == (16 * DigitOf(h) + DigitOf(l)) as char
  {
    hide DigitOf;
    DigitsStep([h, l], 0, 16, 0);
    DigitsStep([h, l], 1, 16, DigitOf(h));
    DigitsStep([h, l], 2, 16, DigitOf(h) * 16 + DigitOf(l));
  }

  lemma OctetOfThree(a: char, b: char, c: char)
    requires '0' <= a <= '3' && DigitOf(b) < 8 && DigitOf(c) < 8
    ensures Octet([a, b, c], 8) == (64 * (a as int - '0' as int) + 8 * DigitOf(b) + DigitOf(c)) as char
  {
    assert DigitOf(a) == a as int - '0' as int;
    hide DigitOf;
    DigitsStep([a, b, c], 0, 8, 0);
    DigitsStep([a, b, c], 1, 8, DigitOf(a));
    DigitsStep([a, b, c], 2, 8, DigitOf(a) * 8 + DigitOf(b));
    DigitsStep([a, b, c], 3, 8, (DigitOf(a) * 8 + DigitOf(b)) * 8 + DigitOf(c));
  }

  lemma DigitsStep(s: string, i: nat, base: nat, acc: nat)
    requires i <= |s|
    ensures DigitsFrom(s, i, base, acc) ==
              if i < |s| && DigitOf(s[i]) < base then DigitsFrom(s, i + 1, base, acc * base + DigitOf(s[i])) else acc
  {
    hide DigitOf;
  }

  /** A numeric escape that is cut off by the end of the text stands for nothing. */
  lemma CutOff(c: char, rest: string)
    requires (c == 'x' || '0' <= c <= '3') && |rest| <= 1
    ensures Unescape(['\\', c] + rest, 0) == Unescape(rest, 0)
  {
    hide Unescape, Octet;
    var s := ['\\', c] + rest;
    UnescapeStep(s, 0);
    UnescapeShift(s, 2, 0);
    assert s[2..] == rest;
    assert "" + Unescape(rest, 0) == Unescape(rest, 0);
  }

  // ---- terms

  /** The text of a CQL term: a backslash stands in front of what it protects. */
  function CqlText(t: string): string {
    if t == "" then ""
    else if t[0] == '\\' && |t| > 1 then [t[1]] + CqlText(t[2..])
    else [t[0]] + CqlText(t[1..])
  }

  /** What the reader makes of a printed term; with masking, wildcards and the characters that they would be
      taken for keep apart. */
  function Sent(t: string, masked: bool): string {
    if t == "" then ""
    else if t[0] == '\\' && |t| > 1 then
      (if masked && t[1] in {'#', '?'} then "\\" else "") + ([t[1]] + Sent(t[2..], masked))
    else if masked && t[0] == '*' then (if |t| > 1 && IsDigit(t[1]) then "?\\" else "?") + Sent(t[1..], masked)
    else if masked && t[0] == '?' then "#" + Sent(t[1..], masked)
    else (if masked && t[0] == '#' then "\\" else "") + ([t[0]] + Sent(t[1..], masked))
  }

  lemma {:induction false} ShownRead(t: string, i: nat, masked: bool)
    requires i <= |t|
    ensures Unescape(Shown(t, i, masked), 0) == Sent(t[i..], masked)
    decreases |t| - i
  {
    hide Unescape, ShownAt;
    if i == |t| {
      UnescapeStep("", 0);
    } else {
      var next := if Escapes(t, i) then i + 2 else i + 1;
      var rest := Shown(t, next, masked);
      ShownRead(t, next, masked);
      assert t[i..][0] == t[i] && (i + 1 < |t| ==> t[i..][1] == t[i + 1]) && t[i..][next - i..] == t[next..];
      OneShown(t, i, masked, rest);
      if t[i] == '\\' && i + 1 == |t| { ShownEnd(t, masked); }
    }
  }

  /** One turn of the printing loop, read. */
  lemma OneShown(t: string, i: nat, masked: bool, rest: string)
    requires i < |t| && (t[i] == '\\' && i + 1 == |t| ==> rest == "")
    ensures Unescape(ShownAt(t, i, masked) + rest, 0) ==
              if Escapes(t, i) then
                (if masked && t[i + 1] in {'#', '?'} then "\\" else "") + ([t[i + 1]] + Unescape(rest, 0))
              else if masked && t[i] == '*' then
                (if i + 1 < |t| && IsDigit(t[i + 1]) then "?\\" else "?") + Unescape(rest, 0)
              else if masked && t[i] == '?' then "#" + Unescape(rest, 0)
              else (if masked && t[i] == '#' then "\\" else "") + ([t[i]] + Unescape(rest, 0))
  {
    hide Unescape;
    if Escapes(t, i) {
      CharShown(t[i + 1], masked && t[i + 1] in {'#', '?'}, t[i + 1] == '\"' || t[i + 1] == '\\', rest);
    } else if masked && t[i] == '*' {
      if i + 1 < |t| && IsDigit(t[i + 1]) {
        assert "?\\\\" + rest == ['?'] + (['\\', '\\'] + rest);
        CharRead('?', ['\\', '\\'] + rest);
        PairRead('\\', rest);
        assert "?\\" + Unescape(rest, 0) == ['?'] + (['\\'] + Unescape(rest, 0));
      } else {
        CharRead('?', rest);
      }
    } else if masked && t[i] == '?' {
      CharRead('#', rest);
    } else {
      CharShown(t[i], masked && t[i] == '#', t[i] == '\"', rest);
    }
  }

  lemma CharShown(c: char, apart: bool, protect: bool, rest: string)
    requires (protect ==> IsInert(c)) && (c == '\\' && !protect ==> rest == "")
    requires !(apart && protect) && (apart ==> c != '\\')
    ensures Unescape(((if protect then "\\" else "") + (if apart then "\\\\" else "") + [c]) + rest, 0) ==
              (if apart then "\\" else "") + ([c] + Unescape(rest, 0))
  {
    hide Unescape;
    var shown := (if protect then "\\" else "") + (if apart then "\\\\" else "") + [c];
    if protect {
      assert shown + rest == ['\\', c] + rest;
      PairRead(c, rest);
      assert "" + ([c] + Unescape(rest, 0)) == [c] + Unescape(rest, 0);
    } else if apart {
      assert shown + rest == ['\\', '\\'] + ([c] + rest);
      PairRead('\\', [c] + rest);
      CharRead(c, rest);
    } else {
      assert shown + rest == [c] + rest;
      CharRead(c, rest);
      assert "" + ([c] + Unescape(rest, 0)) == [c] + Unescape(rest, 0);
    }
  }

  /** Every term that is printed without masking reaches the server as CQL means it. */
  lemma TermKept(m: Mode)
    requires m.process && !m.masked
    ensures Unescape(Body(m), 0) == CqlText(m.cut)
  {
    hide Unescape, Shown;
    ShownRead(m.cut, 0, false);
    assert m.cut[0..] == m.cut;
    SentPlain(m.cut);
  }

  lemma {:induction false} SentPlain(t: string)
    ensures Sent(t, false) == CqlText(t)
    decreases |t|
  {
    if t != "" {
      if t[0] == '\\' && |t| > 1 {
        SentPlain(t[2..]);
        assert "" + ([t[1]] + Sent(t[2..], false)) == [t[1]] + Sent(t[2..], false);
      } else {
        SentPlain(t[1..]);
        assert "" + ([t[0]] + Sent(t[1..], false)) == [t[0]] + Sent(t[1..], false);
      }
    }
  }

  // ---- masked terms

  /** A character, any text, text of at most so many characters, or any one character. */
  datatype Mask = Exactly(c: char) | AnyText | UpTo(digit: char) | AnyOne

  /** The mask that a CQL term is. */
  function CqlMask(t: string): seq<Mask> {
    if t == "" then []
    else if t[0] == '\\' && |t| > 1 then [Exactly(t[1])] + CqlMask(t[2..])
    else [if t[0] == '*' then AnyText else if t[0] == '?' then AnyOne else Exactly(t[0])] + CqlMask(t[1..])
  }

  /** The mask that a term is with truncation attribute 104 of Bib-1, which follows Z39.58. */
  function Z3958(u: string): seq<Mask> {
    if u == "" then []
    else if u[0] == '\\' && |u| > 1 then [Exactly(u[1])] + Z3958(u[2..])
    else if u[0] == '?' && |u| > 1 && IsDigit(u[1]) then [UpTo(u[1])] + Z3958(u[2..])
    else [if u[0] == '?' then AnyText else if u[0] == '#' then AnyOne else Exactly(u[0])] + Z3958(u[1..])
  }

  /** No escaped backslash except at the end, and no escaped digit behind an asterisk. */
  predicate Maskable(t: string) {
    if t == "" then true
    else if t[0] == '\\' && |t| > 1 then (t[1] == '\\' ==> |t| == 2) && Maskable(t[2..])
    else !(t[0] == '*' && StartsEscapedDigit(t[1..])) && Maskable(t[1..])
  }

  predicate StartsEscapedDigit(t: string) { |t| > 1 && t[0] == '\\' && IsDigit(t[1]) }

  /** A term behind its first character. */
  function Rest(t: string): string
    requires t != ""
  {
    if t[0] == '\\' && |t| > 1 then t[2..] else t[1..]
  }

  /** What is sent for the first character of a masked term. */
  function Front(t: string): string
    requires t != ""
  {
    if t[0] == '\\' && |t| > 1 then (if t[1] in {'#', '?'} then ['\\', t[1]] else [t[1]])
    else if t[0] == '*' then (if |t| > 1 && IsDigit(t[1]) then "?\\" else "?")
    else if t[0] == '?' then "#"
    else if t[0] == '#' then "\\#"
    else [t[0]]
  }

  lemma SentStep(t: string)
    requires t != ""
    ensures Sent(t, true) == Front(t) + Sent(Rest(t), true)
  {
    var r := Sent(Rest(t), true);
    if t[0] == '\\' && |t| > 1 {
      Apart(t[1], t[1] in {'#', '?'}, r);
    } else if t[0] != '*' && t[0] != '?' {
      Apart(t[0], t[0] == '#', r);
    }
  }

  lemma Apart(c: char, apart: bool, r: string)
    ensures (if apart then "\\" else "") + ([c] + r) == (if apart then ['\\', c] else [c]) + r
  {
  }

  lemma FirstSent(t: string)
    ensures t == "" <==> Sent(t, true) == ""
    ensures Sent(t, true) != "" && IsDigit(Sent(t, true)[0]) ==> IsDigit(t[0]) || StartsEscapedDigit(t)
    ensures t != "" && IsDigit(t[0]) ==> Sent(t, true) == [t[0]] + Sent(t[1..], true)
    ensures StartsEscapedDigit(t) ==> Sent(t, true) == [t[1]] + Sent(t[2..], true)
  {
    if t != "" {
      SentStep(t);
      hide Sent;
    }
  }

  lemma ReadProtected(c: char, rest: string)
    ensures Z3958("\\" + ([c] + rest)) == [Exactly(c)] + Z3958(rest)
  {
    var u := "\\" + ([c] + rest);
    assert u[0] == '\\' && u[1] == c && u[2..] == rest;
  }

  lemma ReadPlain(c: char, rest: string)
    requires c !in {'\\', '?', '#'} || (c == '\\' && rest == "")
    ensures Z3958([c] + rest) == [Exactly(c)] + Z3958(rest)
  {
    assert ([c] + rest)[1..] == rest;
  }

  lemma ReadMark(c: char, rest: string)
    requires c == '#' || (c == '?' && (rest == "" || !IsDigit(rest[0])))
    ensures Z3958([c] + rest) == [if c == '?' then AnyText else AnyOne] + Z3958(rest)
  {
    assert ([c] + rest)[1..] == rest;
  }

  /** One character of a term, sent and read, where nothing is misread. */
  lemma UnitRead(t: string)
    requires t != "" && !(t[0] == '\\' && |t| > 2 && t[1] == '\\') && !(t[0] == '*' && StartsEscapedDigit(t[1..]))
    ensures var rest := if t[0] == '\\' && |t| > 1 then t[2..] else t[1..];
            Z3958(Sent(t, true)) == [CqlMask(t)[0]] + Z3958(Sent(rest, true))
  {
    hide Z3958, Sent, CqlMask;
    var rest := if t[0] == '\\' && |t| > 1 then t[2..] else t[1..];
    FirstMask(t);
    if t[0] == '\\' && |t| > 1 {
      EscapedRead(t[1], t, rest);
    } else if t[0] == '*' {
      AsteriskRead(t, rest);
    } else {
      OtherRead(t, rest);
    }
  }

  lemma FirstMask(t: string)
    requires t != ""
    ensures CqlMask(t) != []
    ensures CqlMask(t)[0] == if t[0] == '\\' && |t| > 1 then Exactly(t[1])
                             else if t[0] == '*' then AnyText else if t[0] == '?' then AnyOne else Exactly(t[0])
  {
  }

  lemma EscapedRead(c: char, t: string, rest: string)
    requires |t| > 1 && t[0] == '\\' && t[1] == c && rest == t[2..] && (c == '\\' ==> rest == "")
    ensures Z3958(Sent(t, true)) == [Exactly(c)] + Z3958(Sent(rest, true))
  {
    hide Z3958, Sent;
    var r := Sent(rest, true);
    SentStep(t);
    if c in {'#', '?'} {
      Apart(c, true, r);
      ReadProtected(c, r);
    } else {
      if c == '\\' { FirstSent(rest); }
      ReadPlain(c, r);
    }
  }

  lemma AsteriskRead(t: string, rest: string)
    requires t != "" && t[0] == '*' && rest == t[1..] && !StartsEscapedDigit(rest)
    ensures Z3958(Sent(t, true)) == [AnyText] + Z3958(Sent(rest, true))
  {
    hide Z3958, Sent;
    SentStep(t);
    FirstSent(rest);
    if rest != "" && IsDigit(rest[0]) {
      DigitRead(rest[0], Sent(rest[1..], true));
    } else {
      ReadMark('?', Sent(rest, true));
    }
  }

  lemma DigitRead(d: char, r: string)
    requires IsDigit(d)
    ensures Z3958("?\\" + ([d] + r)) == [AnyText] + Z3958([d] + r)
  {
    hide Z3958;
    var u := "\\" + ([d] + r);
    assert "?\\" + ([d] + r) == ['?'] + u;
    ReadMark('?', u);
    ReadProtected(d, r);
    ReadPlain(d, r);
  }

  lemma OtherRead(t: string, rest: string)
    requires t != "" && t[0] != '*' && !(t[0] == '\\' && |t| > 1) && rest == t[1..]
    ensures Z3958(Sent(t, true)) == [if t[0] == '?' then AnyOne else Exactly(t[0])] + Z3958(Sent(rest, true))
  {
    hide Z3958, Sent;
    var r := Sent(rest, true);
    SentStep(t);
    if t[0] == '?' {
      ReadMark('#', r);
    } else if t[0] == '#' {
      Apart('#', true, r);
      ReadProtected('#', r);
    } else {
      if t[0] == '\\' { FirstSent(rest); }
      ReadPlain(t[0], r);
    }
  }

  lemma {:induction false} MaskRead(t: string)
    requires Maskable(t)
    ensures Z3958(Sent(t, true)) == CqlMask(t)
    decreases |t|
  {
    hide Z3958, Sent;
    if t == "" {
      NothingSent();
    } else {
      UnitRead(t);
      MaskRead(if t[0] == '\\' && |t| > 1 then t[2..] else t[1..]);
    }
  }

  lemma NothingSent()
    ensures Z3958(Sent("", true)) == []
  {
  }

  // ---- masks that are not kept

  lemma MaskStep(t: string)
    requires t != ""
    ensures CqlMask(t) != [] && CqlMask(t) == [CqlMask(t)[0]] + CqlMask(Rest(t))
    ensures |CqlMask(t)| == 1 + |CqlMask(Rest(t))|
  {
  }

  /** Dropping a character from the front of what is sent does not make more of it. */
  lemma {:induction false} SentBound(t: string)
    ensures |Z3958(Sent(t, true))| <= |CqlMask(t)|
    ensures t != "" ==> Sent(t, true) != "" && |Z3958(Sent(t, true)[1..])| <= |CqlMask(t)|
    decreases |t|
  {
    hide Z3958, Sent, CqlMask;
    NothingSent();
    FirstSent(t);
    if t != "" {
      var r := Sent(Rest(t), true);
      SentBound(Rest(t));
      FirstSent(Rest(t));
      DroppedBound(t, Rest(t), r);
      MaskStep(t);
      if t[0] == '\\' && |t| > 2 && t[1] == '\\' {
        ReadAcross(t, r);
      } else if t[0] == '*' && StartsEscapedDigit(t[1..]) {
        ReadAcross(t, r);
      } else {
        UnitRead(t);
      }
    }
  }

  /** What is sent behind an escaped backslash, or behind an asterisk the digit, is read with it. */
  lemma ReadAcross(t: string, r: string)
    requires t != "" && r == Sent(Rest(t), true) && r != ""
    requires (t[0] == '\\' && |t| > 2 && t[1] == '\\') || (t[0] == '*' && StartsEscapedDigit(t[1..]))
    ensures Z3958(Sent(t, true)) == [if t[0] == '*' then UpTo(r[0]) else Exactly(r[0])] + Z3958(r[1..])
  {
    hide Z3958, Sent;
    SentStep(t);
    FirstSent(Rest(t));
    assert r == [r[0]] + r[1..];
    if t[0] == '*' {
      ReadUpTo(r[0], r[1..]);
    } else {
      ReadProtected(r[0], r[1..]);
    }
  }

  lemma ReadUpTo(d: char, rest: string)
    requires IsDigit(d)
    ensures Z3958(['?'] + ([d] + rest)) == [UpTo(d)] + Z3958(rest)
  {
    var u := ['?'] + ([d] + rest);
    assert u[0] == '?' && u[1] == d && u[2..] == rest;
  }

  lemma DroppedBound(t: string, rest: string, r: string)
    requires t != "" && rest == Rest(t) && r == Sent(rest, true)
    requires |Z3958(r)| <= |CqlMask(rest)| && (rest != "" ==> r != "" && |Z3958(r[1..])| <= |CqlMask(rest)|)
    ensures Sent(t, true) != "" && |Z3958(Sent(t, true)[1..])| <= |CqlMask(t)|
  {
    hide Z3958, Sent, CqlMask;
    SentStep(t);
    MaskStep(t);
    Dropped(Front(t), r);
    if |Front(t)| == 2 {
      FirstSent(rest);
      if t[0] == '*' {
        assert r == [r[0]] + r[1..];
        ReadProtected(r[0], r[1..]);
      } else {
        OneMore(Front(t)[1], r);
      }
    }
  }

  lemma Dropped(front: string, r: string)
    requires 1 <= |front| <= 2
    ensures (front + r)[1..] == if |front| == 1 then r else [front[1]] + r
  {
  }

  lemma OneMore(c: char, r: string)
    requires c == '#' || c == '?'
    ensures |Z3958([c] + r)| <= 1 + |Z3958(r)| || (r != "" && |Z3958([c] + r)| <= 1 + |Z3958(r[1..])|)
  {
    hide Z3958;
    if c == '?' && r != "" && IsDigit(r[0]) {
      assert [c] + r == ['?'] + ([r[0]] + r[1..]);
      ReadUpTo(r[0], r[1..]);
    } else {
      ReadMark(c, r);
    }
  }

  lemma {:induction false} MaskLost(t: string)
    requires Z3958(Sent(t, true)) == CqlMask(t)
    ensures Maskable(t)
    decreases |t|
  {
    hide Z3958, Sent, CqlMask;
    if t != "" {
      var r := Sent(Rest(t), true);
      FirstSent(Rest(t));
      FirstMask(t);
      MaskStep(t);
      if t[0] == '\\' && |t| > 2 && t[1] == '\\' {
        ReadAcross(t, r);
        SameTail(Exactly(r[0]), Z3958(r[1..]), CqlMask(t)[0], CqlMask(Rest(t)));
        BackslashLost(Rest(t), r);
      } else if t[0] == '*' && StartsEscapedDigit(t[1..]) {
        ReadAcross(t, r);
      } else {
        UnitRead(t);
        SameTail(CqlMask(t)[0], Z3958(r), CqlMask(t)[0], CqlMask(Rest(t)));
        MaskLost(Rest(t));
      }
    }
  }

  lemma SameTail(a: Mask, p: seq<Mask>, b: Mask, q: seq<Mask>)
    ensures [a] + p == [b] + q ==> a == b && p == q
  {
    assert ([a] + p)[0] == a && ([b] + q)[0] == b && ([a] + p)[1..] == p && ([b] + q)[1..] == q;
  }

  /** Behind an escaped backslash the mask is read one character late. */
  lemma BackslashLost(rest: string, r: string)
    requires rest != "" && r == Sent(rest, true) && r != ""
    ensures r[0] != '\\' || Z3958(r[1..]) != CqlMask(rest)
  {
    hide Z3958, Sent, CqlMask;
    var s := Sent(Rest(rest), true);
    SentStep(rest);
    Dropped(Front(rest), s);
    SentBound(Rest(rest));
    MaskStep(rest);
    FirstMask(rest);
    if r[0] == '\\' && |Front(rest)| == 2 {
      MarkIsNoCharacter(Front(rest)[1], s);
    }
  }

  lemma MarkIsNoCharacter(c: char, r: string)
    requires c == '#' || c == '?'
    ensures var z := Z3958([c] + r); z != [] && z[0] != Exactly(c)
  {
  }

  /** Every masked term reaches the server as the mask that CQL means if and only if it has no escaped
      backslash before its end and no escaped digit behind an asterisk. */
  lemma MaskKept(m: Mode)
    requires m.process && m.masked
    ensures Z3958(Unescape(Body(m), 0)) == CqlMask(m.cut) <==> Maskable(m.cut)
  {
    hide Unescape, Shown, Z3958, Sent;
    ShownRead(m.cut, 0, true);
    assert m.cut[0..] == m.cut;
    if Maskable(m.cut) { MaskRead(m.cut); }
    if Z3958(Sent(m.cut, true)) == CqlMask(m.cut) { MaskLost(m.cut); }
  }

  /** Two terms that do not. */
  lemma MaskBroken(t: string)
    requires t == "a\\\\b" || t == "*\\5"
    ensures Z3958(Unescape(Body(Mode(t, true, true)), 0)) != CqlMask(t)
  {
    hide Unescape, Z3958, CqlMask;
    MaskKept(Mode(t, true, true));
    if t == "a\\\\b" {
      assert t[1..] == "\\\\b";
      assert !Maskable("\\\\b");
    } else {
      assert t[1..] == "\\5";
    }
  }

  // ---- braces

  /** A text in braces is one operand, blanks and all. */
  lemma BracedWord(s: string, i: nat, t: string)
    requires OccursAt(s, i, "{" + t + "}") && PqfClean(t) && !AttrStart(t, 0)
    ensures i < |s| && s[i] != ' ' && OneToken(s, i) == Lexed(Token(Term, t), i + |t| + 2)
  {
    hide OccursAt, Scan, OneToken, AttrStart, PqfClean;
    OccursSplit(s, i, "{" + t, "}");
    OccursSplit(s, i, "{", t);
    OccursOne(s, i, '{');
    OccursOne(s, i + 1 + |t|, '}');
    BraceScanned(s, i + 1, t);
    NoAttr(s, i + 1, t);
    OccursSlice(s, i + 1, t);
    BraceToken(s, i);
  }

  lemma BraceToken(s: string, i: nat)
    requires i < |s| && s[i] == '{' && !AttrStart(s, i + 1)
    ensures var e := Scan(s, i + 1, '}');
            OneToken(s, i) == Lexed(Token(Term, s[i + 1..e]), if e < |s| then e + 1 else e)
  {
    hide Scan, AttrStart, WordKind;
  }

  /** No closing brace and no lone backslash at the end. */
  predicate PqfClean(t: string) {
    if t == "" then true
    else if t[0] == '\\' then |t| > 1 && PqfClean(t[2..])
    else t[0] != '}' && PqfClean(t[1..])
  }

  lemma NoAttr(s: string, i: nat, t: string)
    requires OccursAt(s, i, t) && i + |t| < |s| && s[i + |t|] == '}' && !AttrStart(t, 0)
    ensures !AttrStart(s, i)
  {
    if |t| > 0 { assert s[i + 0] == t[0]; }
    if |t| > 1 { assert s[i + 1] == t[1]; }
  }

  lemma {:induction false} BraceScanned(s: string, i: nat, t: string)
    requires OccursAt(s, i, t) && PqfClean(t) && i + |t| < |s| && s[i + |t|] == '}'
    ensures Scan(s, i, '}') == i + |t|
    decreases |t|
  {
    if t != "" {
      assert s[i + 0] == t[0];
      var n := if t[0] == '\\' then 2 else 1;
      assert t == t[..n] + t[n..];
      OccursSplit(s, i, t[..n], t[n..]);
      BraceScanned(s, i + n, t[n..]);
    }
  }
}
