/** JSON trees, printed and parsed, src/json.c with the escaping of src/wrbuf.c:337-375. A C string is
    the octets in front of its NUL. A number is the text it was read from, which stands for its value;
    how the value is printed is a parameter. There are no substitutions. */
module Json {
  import opened Bytes

  datatype Node =
    | Object(members: seq<Member>)
    | Array(elements: seq<Node>)
    | String(text: seq<byte>)
    | Number(text: seq<byte>)
    | True
    | False
    | Null

  datatype Member = Member(key: seq<byte>, value: Node)

  /** The text that printf's %lg gives for the value of a number. */
  type Format = seq<byte> -> seq<byte>

  const MAX_LEVEL := 1000

  const QUOTE: byte := 34
  const BACKSLASH: byte := 92

  // ---- printing

  function HexDigit(n: nat): byte
    requires n < 16
  {
    if n < 10 then 48 + n else 87 + n
  }

  /** One octet as wrbuf_json_write prints it. */
  function Escaped(b: byte): (e: seq<byte>)
    ensures 1 <= |e| <= 6
  {
    if 0 < b < 32 then
      [BACKSLASH] +
      (if b == 8 then [98] else if b == 12 then [102] else if b == 10 then [110]
       else if b == 13 then [114] else if b == 9 then [116]
       else [117, 48, 48, HexDigit(b / 16), HexDigit(b % 16)])
    else if b == QUOTE || b == BACKSLASH then [BACKSLASH, b]
    else [b]
  }

  function EscapedText(t: seq<byte>): seq<byte> {
    if t == [] then [] else Escaped(t[0]) + EscapedText(t[1..])
  }

  function Quoted(t: seq<byte>): seq<byte> {
    [QUOTE] + EscapedText(t) + [QUOTE]
  }

  function Spaces(n: int): seq<byte> {
    if n <= 0 then [] else [SPACE] + Spaces(n - 1)
  }

  /** A line break and the indentation of the next line, when printing pretty. */
  function Break(indent: int, spaces: int): seq<byte> {
    if indent >= 0 then [LF] + Spaces(spaces) else []
  }

  function SubIndent(indent: int): int { if indent >= 0 then indent + 2 else -1 }

  /** What json_write_wrbuf_r writes; `start` tells whether it begins a line. A negative indentation
      is the compact form. */
  function Text(v: Node, indent: int, start: bool, f: Format): seq<byte>
    decreases v, 1
  {
    Lead(v, indent, start) + Body(v, indent, f)
  }

  /** Objects and arrays are indented at the start of a line. */
  function Lead(v: Node, indent: int, start: bool): seq<byte> {
    if start && (v.Object? || v.Array?) then Spaces(indent) else []
  }

  function Body(v: Node, indent: int, f: Format): seq<byte>
    decreases v, 0
  {
    var sub := SubIndent(indent);
    match v
    case Object(ms) =>
      if ms == [] then [123, 125]
      else [123] + Break(indent, sub) + MembersText(ms, sub, false, f) + Break(indent, indent) + [125]
    case Array(es) =>
      if es == [] then [91, 93]
      else [91] + Break(indent, 0) + ElementsText(es, sub, indent >= 0, f) + Break(indent, indent) + [93]
    case String(t) => Quoted(t)
    case Number(t) => f(t)
    case True => Ascii("true")
    case False => Ascii("false")
    case Null => Ascii("null")
  }

  function ElementsText(es: seq<Node>, indent: int, start: bool, f: Format): seq<byte>
    requires es != []
    decreases es, 2
  {
    Text(es[0], indent, start, f) + MoreElementsText(es[1..], indent, f)
  }

  function MoreElementsText(es: seq<Node>, indent: int, f: Format): seq<byte>
    decreases es, 3
  {
    if es == [] then [] else [44] + Break(indent, 0) + ElementsText(es, indent, indent >= 0, f)
  }

  function MemberLead(indent: int, start: bool): seq<byte> { if start then Spaces(indent) else [] }

  function MemberText(m: Member, indent: int, f: Format): seq<byte>
    decreases m, 1
  {
    Quoted(m.key) + [58] + (if indent >= 0 then [SPACE] else []) + Body(m.value, indent, f)
  }

  function MembersText(ms: seq<Member>, indent: int, start: bool, f: Format): seq<byte>
    requires ms != []
    decreases ms, 2
  {
    MemberLead(indent, start) + MemberText(ms[0], indent, f) + MoreMembersText(ms[1..], indent, f)
  }

  function MoreMembersText(ms: seq<Member>, indent: int, f: Format): seq<byte>
    decreases ms, 3
  {
    if ms == [] then [] else [44] + Break(indent, 0) + MembersText(ms, indent, indent >= 0, f)
  }

  // ---- parsing

  /** The character at `i`; NUL behind the end. */
  function At(s: seq<byte>, i: nat): byte { if i < |s| then s[i] else 0 }

  predicate IsBlank(b: byte) { b == SPACE || b == 9 || b == CR || b == LF }

  /** look_ch: the next position that is not white space. */
  function Look(s: seq<byte>, i: nat): (j: nat)
    requires i <= |s|
    ensures i <= j <= |s| && !IsBlank(At(s, j)) && forall k :: i <= k < j ==> IsBlank(s[k])
    decreases |s| - i
  {
    if i < |s| && IsBlank(s[i]) then Look(s, i + 1) else i
  }

  function HexValue(b: byte): (v: Option<nat>)
    ensures v.Some? ==> v.value < 16 && b != 0
  {
    if 48 <= b <= 57 then Some(b - 48)
    else if 97 <= b <= 102 then Some(b - 87)
    else if 65 <= b <= 70 then Some(b - 55)
    else None
  }

  /** The code of four hexadecimal digits at `i`. */
  function HexCode(s: seq<byte>, i: nat): (code: Option<nat>)
    ensures code.Some? ==> code.value <= 0xffff && i + 4 <= |s|
  {
    hide HexValue;
    var a, b, c, d := HexValue(At(s, i)), HexValue(At(s, i + 1)), HexValue(At(s, i + 2)), HexValue(At(s, i + 3));
    if a.None? || b.None? || c.None? || d.None? then None
    else Some(a.value * 4096 + b.value * 256 + c.value * 16 + d.value)
  }

  /** yaz_write_UTF8_char for the codes of an escape. */
  function Utf8(code: nat): (u: seq<byte>)
    requires code <= 0xffff
    ensures 1 <= |u| <= 3
  {
    if code <= 0x7f then [code]
    else if code <= 0x7ff then [0xc0 + code / 64, 0x80 + code % 64]
    else [0xe0 + code / 4096, 0x80 + code / 64 % 64, 0x80 + code % 64]
  }

  /** The octet a single-letter escape stands for. */
  function Unescaped(b: byte): Option<byte> {
    if b == QUOTE || b == BACKSLASH || b == 47 then Some(b)
    else if b == 98 then Some(8)
    else if b == 102 then Some(12)
    else if b == 110 then Some(10)
    else if b == 114 then Some(13)
    else if b == 116 then Some(9)
    else None
  }

  datatype Char = Invalid | Char(out: seq<byte>, next: nat)

  /** json_one_char. */
  function OneChar(s: seq<byte>, i: nat): (c: Char)
    requires i < |s|
    ensures c.Char? ==> i < c.next <= |s|
  {
    if s[i] == BACKSLASH && At(s, i + 1) != 0 then
      if Unescaped(s[i + 1]).Some? then Char([Unescaped(s[i + 1]).value], i + 2)
      else if s[i + 1] == 117 && HexCode(s, i + 2).Some? then Char(Utf8(HexCode(s, i + 2).value), i + 6)
      else Invalid
    else if 0 < s[i] <= 31 then Invalid
    else Char([s[i]], i + 1)
  }

  /** The characters from `i` to the closing quote, and its position. */
  function Chars(s: seq<byte>, i: nat): (c: Char)
    requires i <= |s|
    ensures c.Char? ==> i <= c.next < |s| && s[c.next] == QUOTE
    decreases |s| - i
  {
    if i == |s| then Invalid
    else if s[i] == QUOTE then Char([], i)
    else
      var c := OneChar(s, i);
      if c.Invalid? then Invalid
      else
        var rest := Chars(s, c.next);
        if rest.Invalid? then Invalid else Char(c.out + rest.out, rest.next)
  }

  /** What a parsing function returns: a value or none, the position reached, and whether an error
      message was set on the way. */
  datatype Result<+T> = Result(node: Option<T>, next: nat, err: bool)

  /** json_parse_string. */
  function StringAt(s: seq<byte>, i: nat): (r: Result<seq<byte>>)
    requires i <= |s|
    ensures i <= r.next <= |s| && (r.node.Some? ==> i < r.next) && (r.err <==> r.node.None?)
  {
    var j := Look(s, i);
    if At(s, j) != QUOTE then Result(None, j, true)
    else
      match Chars(s, j + 1)
      case Invalid => Result(None, j + 1, true)
      case Char(out, next) => Result(Some(out), next + 1, false)
  }

  /** The end of at most `n` lower-case letters at `i`. */
  function LettersEnd(s: seq<byte>, i: nat, n: nat): (j: nat)
    requires i <= |s|
    ensures i <= j <= |s| && j <= i + n && forall k :: i <= k < j ==> 97 <= s[k] <= 122
    ensures j < i + n && j < |s| ==> !(97 <= s[j] <= 122)
    decreases n
  {
    if n > 0 && i < |s| && 97 <= s[i] <= 122 then LettersEnd(s, i + 1, n - 1) else i
  }

  function DigitsEnd(s: seq<byte>, i: nat): (j: nat)
    requires i <= |s|
    ensures i <= j <= |s| && (forall k :: i <= k < j ==> 48 <= s[k] <= 57) && !(48 <= At(s, j) <= 57)
    decreases |s| - i
  {
    if i < |s| && 48 <= s[i] <= 57 then DigitsEnd(s, i + 1) else i
  }

  /** The end of a fraction at `i`, if there is one; None if it has no digits. */
  function FractionEnd(s: seq<byte>, i: nat): (r: Option<nat>)
    requires i <= |s|
    ensures r.Some? ==> i <= r.value <= |s|
  {
    if At(s, i) != 46 then Some(i)
    else if DigitsEnd(s, i + 1) == i + 1 then None
    else Some(DigitsEnd(s, i + 1))
  }

  /** The end of an exponent at `i`, if there is one; None if it has no digits. */
  function ExponentEnd(s: seq<byte>, i: nat): (r: Option<nat>)
    requires i <= |s|
    ensures r.Some? ==> i <= r.value <= |s|
  {
    if At(s, i) != 101 && At(s, i) != 69 then Some(i)
    else
      var k := if At(s, i + 1) == 43 || At(s, i + 1) == 45 then i + 2 else i + 1;
      if DigitsEnd(s, k) == k then None else Some(DigitsEnd(s, k))
  }

  /** strtod reads on behind a leading zero: more digits, or a hexadecimal number. */
  predicate ReadsOn(s: seq<byte>, i: nat) {
    || 48 <= At(s, i) <= 57
    || ((At(s, i) == 120 || At(s, i) == 88) &&
        (HexValue(At(s, i + 1)).Some? || (At(s, i + 1) == 46 && HexValue(At(s, i + 2)).Some?)))
  }

  /** json_parse_number: the end of the number at `i`, if there is one. */
  function NumberEnd(s: seq<byte>, i: nat): (r: Option<nat>)
    requires i < |s|
    ensures r.Some? ==> i < r.value <= |s|
  {
    var j := if s[i] == 45 then i + 1 else i;
    if !(48 <= At(s, j) <= 57) || (At(s, j) == 48 && ReadsOn(s, j + 1)) then None
    else
      var k := if At(s, j) == 48 then j + 1 else DigitsEnd(s, j + 1);
      match FractionEnd(s, k)
      case None => None
      case Some(m) => ExponentEnd(s, m)
  }

  function Keyword(tok: seq<byte>): Option<Node> {
    if tok == Ascii("true") then Some(True)
    else if tok == Ascii("false") then Some(False)
    else if tok == Ascii("null") then Some(Null)
    else None
  }

  /** json_parse_value. */
  function Value(s: seq<byte>, i: nat, level: nat): (r: Result<Node>)
    requires i <= |s|
    ensures i <= r.next <= |s| && (r.node.None? ==> r.err)
    decreases |s| - i, 2
  {
    var j := Look(s, i);
    var c := At(s, j);
    if c == QUOTE then
      var t := StringAt(s, j);
      Result(if t.node.Some? then Some(String(t.node.value)) else None, t.next, t.err)
    else if c == 0 then Result(None, j, true)
    else if c == 45 || 48 <= c <= 57 then
      var e := NumberEnd(s, j);
      if e.None? then Result(None, j, true) else Result(Some(Number(s[j..e.value])), e.value, false)
    else if c == 123 then ObjectAt(s, j, level)
    else if c == 91 then ArrayAt(s, j, level)
    else if c == 37 then Result(None, DigitsEnd(s, j + 1), true)
    else
      var e := LettersEnd(s, j, 7);
      Result(Keyword(s[j..e]), e, Keyword(s[j..e]).None?)
  }

  /** json_parse_array. */
  function ArrayAt(s: seq<byte>, j: nat, level: nat): (r: Result<Node>)
    requires j < |s|
    ensures j < r.next <= |s| && (r.node.None? ==> r.err)
    decreases |s| - j, 1
  {
    if level >= MAX_LEVEL then Result(None, j + 1, true)
    else
      var k := Look(s, j + 1);
      if At(s, k) == 93 then Result(Some(Array([])), k + 1, false)
      else
        var es := Elements(s, k, level + 1);
        var q := Look(s, es.next);
        if At(s, q) != 93 then Result(None, q, true)
        else Result(Some(Array(if es.node.Some? then es.node.value else [])), q + 1, es.err)
  }

  /** json_parse_elements. */
  function Elements(s: seq<byte>, i: nat, level: nat): (r: Result<seq<Node>>)
    requires i <= |s|
    ensures i <= r.next <= |s| && (r.node.None? ==> r.err)
    decreases |s| - i, 3
  {
    var v := Value(s, i, level);
    if v.node.None? then Result(None, v.next, true)
    else MoreElements(s, v.next, level, [v.node.value], v.err)
  }

  /** Its loop, with the elements so far and whether an error message is set. */
  function MoreElements(s: seq<byte>, i: nat, level: nat, es: seq<Node>, err: bool): (r: Result<seq<Node>>)
    requires i <= |s|
    ensures i <= r.next <= |s| && (r.node.None? ==> r.err) && (err ==> r.err)
    decreases |s| - i, 0
  {
    var q := Look(s, i);
    if At(s, q) != 44 then Result(Some(es), q, err)
    else
      var v := Value(s, q + 1, level);
      if v.node.None? then Result(None, v.next, true)
      else MoreElements(s, v.next, level, es + [v.node.value], err || v.err)
  }

  /** json_parse_pair. */
  function PairAt(s: seq<byte>, i: nat, level: nat): (r: Result<Member>)
    requires i <= |s|
    ensures i <= r.next <= |s| && (r.node.None? ==> r.err)
    decreases |s| - i, 0
  {
    var k := StringAt(s, i);
    if k.node.None? then Result(None, k.next, true)
    else
      var q := Look(s, k.next);
      if At(s, q) != 58 then Result(None, q, true)
      else
        var v := Value(s, q + 1, level);
        if v.node.None? then Result(None, v.next, true)
        else Result(Some(Member(k.node.value, v.node.value)), v.next, v.err)
  }

  /** json_parse_members. */
  function Members(s: seq<byte>, i: nat, level: nat): (r: Result<seq<Member>>)
    requires i <= |s|
    ensures i <= r.next <= |s| && (r.node.None? ==> r.err)
    decreases |s| - i, 1
  {
    var m := PairAt(s, i, level);
    if m.node.None? then Result(None, m.next, true)
    else MoreMembers(s, m.next, level, [m.node.value], m.err)
  }

  function MoreMembers(s: seq<byte>, i: nat, level: nat, ms: seq<Member>, err: bool): (r: Result<seq<Member>>)
    requires i <= |s|
    ensures i <= r.next <= |s| && (r.node.None? ==> r.err) && (err ==> r.err)
    decreases |s| - i, 0
  {
    var q := Look(s, i);
    if At(s, q) != 44 then Result(Some(ms), q, err)
    else
      var m := PairAt(s, q + 1, level);
      if m.node.None? then Result(None, m.next, true)
      else MoreMembers(s, m.next, level, ms + [m.node.value], err || m.err)
  }

  /** json_parse_object. */
  function ObjectAt(s: seq<byte>, j: nat, level: nat): (r: Result<Node>)
    requires j < |s|
    ensures j < r.next <= |s| && (r.node.None? ==> r.err)
    decreases |s| - j, 1
  {
    var k := Look(s, j + 1);
    if At(s, k) == 125 then Result(Some(Object([])), k + 1, false)
    else if level >= MAX_LEVEL then Result(None, k, true)
    else
      var ms := Members(s, k, level + 1);
      if ms.node.None? then Result(None, ms.next, true)
      else
        var q := Look(s, ms.next);
        if At(s, q) != 125 then Result(None, q, true)
        else Result(Some(Object(ms.node.value)), q + 1, ms.err)
  }

  /** json_parser_parse. */
  function Parse(s: seq<byte>): Option<Node> {
    var v := Value(s, 0, 0);
    if v.node.None? || v.err || At(s, Look(s, v.next)) != 0 then None else v.node
  }
}
