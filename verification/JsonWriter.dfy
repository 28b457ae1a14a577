/** json_write_wrbuf_r, src/json.c:558-659: text is appended to a buffer; whether a line is indented
    depends on what the buffer ends in. */
module JsonWriter {
  import opened Bytes
  import opened Json

  /** The buffer is empty or ends a line. */
  predicate AtStart(result: seq<byte>) { result == [] || result[|result| - 1] == LF }

  /** json_indent. */
  method Indent(result: seq<byte>, indent: int) returns (out: seq<byte>)
    ensures out == result + if AtStart(result) then Spaces(indent) else []
  {
    out := result;
    if AtStart(result) {
      var i := 0;
      while i < indent
        invariant indent >= 0 ==> 0 <= i <= indent
        invariant out + Spaces(indent - i) == result + Spaces(indent)
      {
        SpacesStep(out, indent - i);
        out := out + [SPACE];
        i := i + 1;
      }
      assert out + Spaces(indent - i) == out;
    }
  }

  lemma SpacesStep(out: seq<byte>, n: int)
    requires n > 0
    ensures out + Spaces(n) == out + [SPACE] + Spaces(n - 1)
  {
  }

  lemma {:induction false} SpacesEnd(n: int)
    requires n > 0
    ensures Spaces(n) != [] && Spaces(n)[|Spaces(n)| - 1] == SPACE
  {
    if n > 1 {
      SpacesEnd(n - 1);
    }
  }

  /** wrbuf_json_write. */
  method WriteEscaped(result: seq<byte>, t: seq<byte>) returns (out: seq<byte>)
    ensures out == result + EscapedText(t)
  {
    hide Escaped;
    out := result;
    for i := 0 to |t|
      invariant out + EscapedText(t[i..]) == result + EscapedText(t)
    {
      assert t[i..][1..] == t[i + 1..];
      assert out + (Escaped(t[i]) + EscapedText(t[i + 1..])) == out + Escaped(t[i]) + EscapedText(t[i + 1..]);
      out := out + Escaped(t[i]);
    }
    assert t[|t|..] == [] && out + [] == out;
  }

  method WriteString(result: seq<byte>, t: seq<byte>) returns (out: seq<byte>)
    ensures out == result + Quoted(t)
  {
    hide EscapedText;
    out := WriteEscaped(result + [QUOTE], t);
    out := out + [QUOTE];
    InQuotes(result, EscapedText(t));
  }

  lemma InQuotes(a: seq<byte>, b: seq<byte>)
    ensures a + [QUOTE] + b + [QUOTE] == a + ([QUOTE] + b + [QUOTE])
  {
  }

  method NewLine(result: seq<byte>, indent: int, spaces: int) returns (out: seq<byte>)
    ensures out == result + Break(indent, spaces)
  {
    out := result;
    if indent >= 0 {
      out := Indent(out + [LF], spaces);
      assert result + [LF] + Spaces(spaces) == result + ([LF] + Spaces(spaces));
    } else {
      assert result + [] == result;
    }
  }

  /** A node that is not a list or a pair. */
  method Write(v: Node, result: seq<byte>, indent: int, f: Format) returns (out: seq<byte>)
    ensures out == result + Text(v, indent, AtStart(result), f)
    decreases v, 1
  {
    hide MembersText, ElementsText, Spaces;
    match v
    case Object(ms) =>
      out := Indent(result, indent);
      out := WriteObject(ms, out, indent, f);
      Regroup(result, Lead(v, indent, AtStart(result)), Body(v, indent, f));
    case Array(es) =>
      out := Indent(result, indent);
      out := WriteArray(es, out, indent, f);
      Regroup(result, Lead(v, indent, AtStart(result)), Body(v, indent, f));
    case String(t) =>
      out := WriteString(result, t);
      Regroup(result, [], Body(v, indent, f));
    case Number(t) =>
      out := result + f(t);
      Regroup(result, [], Body(v, indent, f));
    case True =>
      out := result + Ascii("true");
      Regroup(result, [], Body(v, indent, f));
    case False =>
      out := result + Ascii("false");
      Regroup(result, [], Body(v, indent, f));
    case Null =>
      out := result + Ascii("null");
      Regroup(result, [], Body(v, indent, f));
  }

  lemma Regroup(a: seq<byte>, b: seq<byte>, c: seq<byte>)
    ensures a + b + c == a + (b + c) && [] + c == c && a + [] == a
  {
  }

  method WriteObject(ms: seq<Member>, result: seq<byte>, indent: int, f: Format) returns (out: seq<byte>)
    ensures out == result + Body(Object(ms), indent, f)
    decreases ms, 3
  {
    hide MembersText, Break;
    var sub := SubIndent(indent);
    out := result + [123];
    if ms != [] {
      out := NewLine(out, indent, sub);
      NotAtStart(result, indent, sub);
      out := WriteMembers(ms, out, sub, f);
      out := NewLine(out, indent, indent);
      Flatten(result, [123], Break(indent, sub), MembersText(ms, sub, false, f), Break(indent, indent), [125]);
    }
    out := out + [125];
    assert result + [123] + [125] == result + [123, 125];
  }

  lemma NotAtStart(result: seq<byte>, indent: int, sub: int)
    requires sub == SubIndent(indent)
    ensures !AtStart(result + [123] + Break(indent, sub))
  {
    if indent >= 0 {
      SpacesEnd(sub);
    } else {
      assert result + [123] + [] == result + [123];
    }
  }

  lemma Flatten(r: seq<byte>, a: seq<byte>, b: seq<byte>, c: seq<byte>, d: seq<byte>, e: seq<byte>)
    ensures r + a + b + c + d + e == r + (a + b + c + d + e)
  {
  }

  method WriteArray(es: seq<Node>, result: seq<byte>, indent: int, f: Format) returns (out: seq<byte>)
    ensures out == result + Body(Array(es), indent, f)
    decreases es, 3
  {
    hide ElementsText, Break;
    var sub := SubIndent(indent);
    out := result + [91];
    if es != [] {
      out := NewLine(out, indent, 0);
      LineStart(result, 91, indent);
      out := WriteElements(es, out, sub, f);
      out := NewLine(out, indent, indent);
      Flatten(result, [91], Break(indent, 0), ElementsText(es, sub, indent >= 0, f), Break(indent, indent), [93]);
    }
    out := out + [93];
    assert result + [91] + [93] == result + [91, 93];
  }

  /** Behind a bracket or a comma a line begins exactly when printing pretty. */
  lemma LineStart(result: seq<byte>, b: byte, indent: int)
    requires b != LF
    ensures AtStart(result + [b] + Break(indent, 0)) <==> indent >= 0
  {
    if indent < 0 {
      assert result + [b] + [] == result + [b];
    }
  }

  /** A list of elements. */
  method WriteElements(es: seq<Node>, result: seq<byte>, indent: int, f: Format) returns (out: seq<byte>)
    requires es != []
    ensures out == result + ElementsText(es, indent, AtStart(result), f)
    decreases es, 2
  {
    hide Text, Break;
    out := Write(es[0], result, indent, f);
    var first, rest := Text(es[0], indent, AtStart(result), f), es[1..];
    if rest != [] {
      out := out + [44];
      LineStart(result + first, 44, indent);
      out := NewLine(out, indent, 0);
      out := WriteElements(rest, out, indent, f);
      Flatten(result, first, [44], Break(indent, 0), ElementsText(rest, indent, indent >= 0, f), []);
      Tail(first, [44], Break(indent, 0), ElementsText(rest, indent, indent >= 0, f));
    } else {
      assert first + [] == first;
    }
  }

  lemma Tail(a: seq<byte>, b: seq<byte>, c: seq<byte>, d: seq<byte>)
    ensures a + b + c + d + [] == a + (b + c + d) && forall r :: r + a + b + c + d + [] == r + a + b + c + d
  {
  }

  /** A list of pairs. */
  method WriteMembers(ms: seq<Member>, result: seq<byte>, indent: int, f: Format) returns (out: seq<byte>)
    requires ms != []
    ensures out == result + MembersText(ms, indent, AtStart(result), f)
    decreases ms, 2
  {
    hide Break, MemberText, Spaces;
    var lead, text, rest := MemberLead(indent, AtStart(result)), MemberText(ms[0], indent, f), ms[1..];
    out := result;
    if indent >= 0 {
      out := Indent(out, indent);
    } else {
      NoSpaces(indent);
      assert result + [] == result;
    }
    out := WritePair(ms[0], out, indent, f);
    if rest != [] {
      out := out + [44];
      LineStart(result + lead + text, 44, indent);
      out := NewLine(out, indent, 0);
      out := WriteMembers(rest, out, indent, f);
      Flatten(result, lead, text, [44], Break(indent, 0), MembersText(rest, indent, indent >= 0, f));
      FiveParts(lead, text, [44], Break(indent, 0), MembersText(rest, indent, indent >= 0, f));
    } else {
      Regroup(result, lead, text);
      assert lead + text + [] == lead + text;
    }
  }

  lemma NoSpaces(n: int)
    requires n <= 0
    ensures Spaces(n) == []
  {
  }

  lemma FiveParts(a: seq<byte>, b: seq<byte>, c: seq<byte>, d: seq<byte>, e: seq<byte>)
    ensures a + b + c + d + e == a + b + (c + d + e)
  {
  }

  method WritePair(m: Member, result: seq<byte>, indent: int, f: Format) returns (out: seq<byte>)
    ensures out == result + MemberText(m, indent, f)
    decreases m, 2
  {
    hide Body, Quoted;
    out := WriteString(result, m.key);
    out := out + [58];
    var gap := if indent >= 0 then [SPACE] else [];
    out := out + gap;
    assert !AtStart(out) by {
      if indent < 0 {
        assert out == result + Quoted(m.key) + [58];
      }
    }
    out := Write(m.value, out, indent, f);
    Flatten(result, Quoted(m.key), [58], gap, Body(m.value, indent, f), []);
    Tail(Quoted(m.key), [58], gap, Body(m.value, indent, f));
    Regroup(result + Quoted(m.key) + [58] + gap, [], Body(m.value, indent, f));
  }

  /** json_write_wrbuf and json_write_wrbuf_pretty. */
  method Print(v: Node, pretty: bool, f: Format) returns (out: seq<byte>)
    ensures out == Text(v, if pretty then 0 else -1, true, f)
  {
    out := Write(v, [], if pretty then 0 else -1, f);
  }
}
