/** The JSON parser and writer as they run, src/json.c: a parser object with a position, an error flag
    and a nesting level, and an output buffer that grows. */
module JsonParser {
  import opened Bytes
  import opened Json

  class Parser {
    /** The text that json_parser_parse is given. */
    const buf: seq<byte>
    var cp: nat
    var err: bool
    var level: nat

    ghost predicate Valid()
      reads this
    {
      cp <= |buf|
    }

    constructor (text: seq<byte>)
      ensures Valid() && buf == text && cp == 0 && !err && level == 0
    {
      buf, cp, err, level := text, 0, false, 0;
    }

    /** look_ch. */
    method LookCh() returns (c: byte)
      requires Valid()
      modifies this`cp
      ensures Valid() && cp == Look(buf, old(cp)) && c == At(buf, cp)
    {
      while cp < |buf| && IsBlank(buf[cp])
        invariant old(cp) <= cp <= |buf| && Look(buf, cp) == Look(buf, old(cp))
        decreases |buf| - cp
      {
        cp := cp + 1;
      }
      c := At(buf, cp);
    }

    /** json_parse_string: one pass checks and measures the characters, the next copies them. */
    method ParseString() returns (t: Option<seq<byte>>)
      requires Valid()
      modifies this`cp, this`err
      ensures Valid()
      ensures var r := StringAt(buf, old(cp)); t == r.node && cp == r.next && err == (old(err) || r.err)
    {
      hide OneChar, Chars;
      var c := LookCh();
      if c != QUOTE {
        err := true;
        return None;
      }
      cp := cp + 1;
      var ok, l := CharsLength(buf, cp);
      if !ok {
        err := true;
        return None;
      }
      var dst, p := CopyChars(buf, cp);
      cp := p + 1;
      t := Some(dst);
    }

    /** json_parse_value. */
    method ParseValue() returns (n: Option<Node>)
      requires Valid()
      modifies this`cp, this`err, this`level
      ensures Valid() && level == old(level)
      ensures var r := Value(buf, old(cp), level); n == r.node && cp == r.next && err == (old(err) || r.err)
      decreases |buf| - cp, 2
    {
      hide StringAt, ObjectAt, ArrayAt, NumberEnd, DigitsEnd, LettersEnd, Keyword;
      var c := LookCh();
      if c == QUOTE {
        LookAgain(buf, old(cp));
        var t := ParseString();
        n := if t.Some? then Some(String(t.value)) else None;
      } else if c == 0 {
        err := true;
        n := None;
      } else if c == 45 || 48 <= c <= 57 {
        n := ParseNumber();
      } else if c == 123 {
        n := ParseObject();
      } else if c == 91 {
        n := ParseArray();
      } else if c == 37 {
        cp := cp + 1;
        SkipDigits();
        err := true;
        n := None;
      } else {
        var start := cp;
        Letters();
        n := Keyword(buf[start..cp]);
        if n.None? {
          err := true;
        }
      }
    }

    /** json_parse_number: one scan for the grammar; strtod has to stop at the same place. */
    method ParseNumber() returns (n: Option<Node>)
      requires Valid() && cp < |buf|
      modifies this`cp, this`err
      ensures Valid()
      ensures var e := NumberEnd(buf, old(cp));
              if e.None? then n.None? && cp == old(cp) && err
              else n == Some(Number(buf[old(cp)..e.value])) && cp == e.value && err == old(err)
    {
      hide NumberEnd;
      var e := ScanNumber(buf, cp);
      if e.None? {
        err := true;
        return None;
      }
      n := Some(Number(buf[cp..e.value]));
      cp := e.value;
    }

    method SkipDigits()
      requires Valid()
      modifies this`cp
      ensures Valid() && cp == DigitsEnd(buf, old(cp))
    {
      cp := DigitLoop(buf, cp);
    }

    /** At most seven lower-case letters. */
    method Letters()
      requires Valid()
      modifies this`cp
      ensures Valid() && cp == LettersEnd(buf, old(cp), 7)
    {
      var i := 0;
      while cp < |buf| && 97 <= buf[cp] <= 122 && i < 7
        invariant cp <= |buf| && i <= 7 && LettersEnd(buf, cp, 7 - i) == LettersEnd(buf, old(cp), 7)
      {
        cp := cp + 1;
        i := i + 1;
      }
    }

    /** json_parse_array: the level is restored whatever the elements do. */
    method ParseArray() returns (n: Option<Node>)
      requires Valid() && At(buf, cp) == 91
      modifies this`cp, this`err, this`level
      ensures Valid() && level == old(level)
      ensures var r := ArrayAt(buf, old(cp), level); n == r.node && cp == r.next && err == (old(err) || r.err)
      decreases |buf| - cp, 1
    {
      hide Elements, ArrayAt, Look;
      ArrayUnfold(buf, cp, level);
      cp := cp + 1;
      if level >= MAX_LEVEL {
        err := true;
        return None;
      }
      level := level + 1;
      var es: seq<Node> := [];
      var c := LookCh();
      if c != 93 {
        var elements := ParseElements();
        if elements.Some? {
          es := elements.value;
        }
        c := LookCh();
      }
      level := level - 1;
      if c != 93 {
        err := true;
        return None;
      }
      cp := cp + 1;
      n := Some(Array(es));
    }

    /** json_parse_elements. */
    method ParseElements() returns (es: Option<seq<Node>>)
      requires Valid()
      modifies this`cp, this`err, this`level
      ensures Valid() && level == old(level)
      ensures var r := Elements(buf, old(cp), level); es == r.node && cp == r.next && err == (old(err) || r.err)
      decreases |buf| - cp, 3
    {
      hide Value, Elements, MoreElements;
      ElementsUnfold(buf, cp, level);
      ghost var set_ := Value(buf, cp, level).err;
      var n := ParseValue();
      if n.None? {
        return None;
      }
      es := ElementLoop([n.value], set_);
    }

    /** The rest of the list, behind its first elements. */
    method ElementLoop(first: seq<Node>, ghost set_: bool) returns (es: Option<seq<Node>>)
      requires Valid() && (set_ ==> err)
      modifies this`cp, this`err, this`level
      ensures Valid() && level == old(level)
      ensures var r := MoreElements(buf, old(cp), level, first, set_);
              es == r.node && cp == r.next && err == (old(err) || r.err)
      decreases |buf| - cp, 0
    {
      hide Value, MoreElements, Look;
      var list := first;
      ghost var from: nat, now := cp, set_;
      var c := LookCh();
      while c == 44
        invariant Valid() && from <= |buf| && cp == Look(buf, from) && c == At(buf, cp)
        invariant level == old(level) && old(cp) <= from && err == (old(err) || now)
        invariant MoreElements(buf, old(cp), level, first, set_) == MoreElements(buf, from, level, list, now)
        decreases |buf| - cp
      {
        MoreElementsUnfold(buf, from, level, list, now);
        cp := cp + 1;
        ghost var more := Value(buf, cp, level).err;
        var n := ParseValue();
        if n.None? {
          return None;
        }
        list := list + [n.value];
        from, now := cp, now || more;
        c := LookCh();
      }
      MoreElementsUnfold(buf, from, level, list, now);
      es := Some(list);
    }

    /** json_parse_pair. */
    method ParsePair() returns (m: Option<Member>)
      requires Valid()
      modifies this`cp, this`err, this`level
      ensures Valid() && level == old(level)
      ensures var r := PairAt(buf, old(cp), level); m == r.node && cp == r.next && err == (old(err) || r.err)
      decreases |buf| - cp, 3
    {
      hide Value, StringAt;
      var key := ParseString();
      if key.None? {
        return None;
      }
      var c := LookCh();
      if c != 58 {
        err := true;
        return None;
      }
      cp := cp + 1;
      var v := ParseValue();
      if v.None? {
        return None;
      }
      m := Some(Member(key.value, v.value));
    }

    /** json_parse_members. */
    method ParseMembers() returns (ms: Option<seq<Member>>)
      requires Valid()
      modifies this`cp, this`err, this`level
      ensures Valid() && level == old(level)
      ensures var r := Members(buf, old(cp), level); ms == r.node && cp == r.next && err == (old(err) || r.err)
      decreases |buf| - cp, 4
    {
      hide PairAt, Members, MoreMembers;
      MembersUnfold(buf, cp, level);
      ghost var set_ := PairAt(buf, cp, level).err;
      var m := ParsePair();
      if m.None? {
        return None;
      }
      ms := MemberLoop([m.value], set_);
    }

    /** The rest of the list, behind its first members. */
    method MemberLoop(first: seq<Member>, ghost set_: bool) returns (ms: Option<seq<Member>>)
      requires Valid() && (set_ ==> err)
      modifies this`cp, this`err, this`level
      ensures Valid() && level == old(level)
      ensures var r := MoreMembers(buf, old(cp), level, first, set_);
              ms == r.node && cp == r.next && err == (old(err) || r.err)
      decreases |buf| - cp, 0
    {
      hide PairAt, MoreMembers, Look;
      var list := first;
      ghost var from: nat, now := cp, set_;
      var c := LookCh();
      while c == 44
        invariant Valid() && from <= |buf| && cp == Look(buf, from) && c == At(buf, cp)
        invariant level == old(level) && old(cp) <= from && err == (old(err) || now)
        invariant MoreMembers(buf, old(cp), level, first, set_) == MoreMembers(buf, from, level, list, now)
        decreases |buf| - cp
      {
        MoreMembersUnfold(buf, from, level, list, now);
        cp := cp + 1;
        ghost var more := PairAt(buf, cp, level).err;
        var m := ParsePair();
        if m.None? {
          return None;
        }
        list := list + [m.value];
        from, now := cp, now || more;
        c := LookCh();
      }
      MoreMembersUnfold(buf, from, level, list, now);
      ms := Some(list);
    }

    /** json_parse_object. */
    method ParseObject() returns (n: Option<Node>)
      requires Valid() && At(buf, cp) == 123
      modifies this`cp, this`err, this`level
      ensures Valid() && level == old(level)
      ensures var r := ObjectAt(buf, old(cp), level); n == r.node && cp == r.next && err == (old(err) || r.err)
      decreases |buf| - cp, 1
    {
      hide Members, Look;
      cp := cp + 1;
      LookAgain(buf, cp);
      var list: seq<Member> := [];
      var c := LookCh();
      if c != 125 {
        if level >= MAX_LEVEL {
          err := true;
          return None;
        }
        level := level + 1;
        var ms := ParseMembers();
        level := level - 1;
        if ms.None? {
          return None;
        }
        list := ms.value;
      }
      n := CloseObject(list);
    }

    /** The closing brace of an object. */
    method CloseObject(list: seq<Member>) returns (n: Option<Node>)
      requires Valid()
      modifies this`cp, this`err
      ensures Valid()
      ensures var q := Look(buf, old(cp));
              if At(buf, q) != 125 then n.None? && cp == q && err
              else n == Some(Object(list)) && cp == q + 1 && err == old(err)
    {
      hide Look;
      var c := LookCh();
      if c != 125 {
        err := true;
        return None;
      }
      cp := cp + 1;
      n := Some(Object(list));
    }

    /** json_parser_parse. */
    method ParseText() returns (n: Option<Node>)
      modifies this`cp, this`err, this`level
      ensures Valid() && level == 0 && n == Parse(buf)
    {
      hide Value;
      cp, err, level := 0, false, 0;
      n := ParseValue();
      if n.None? {
        return None;
      }
      if err {
        return None;
      }
      var c := LookCh();
      if c != 0 {
        err := true;
        return None;
      }
    }
  }

  lemma LookAgain(s: seq<byte>, i: nat)
    requires i <= |s|
    ensures Look(s, Look(s, i)) == Look(s, i)
  {
  }

  // ---- one step of the parsing functions

  lemma ArrayUnfold(s: seq<byte>, j: nat, level: nat)
    requires j < |s|
    ensures ArrayAt(s, j, level) ==
              if level >= MAX_LEVEL then Result(None, j + 1, true)
              else
                var k := Look(s, j + 1);
                if At(s, k) == 93 then Result(Some(Array([])), k + 1, false)
                else
                  var es := Elements(s, k, level + 1);
                  var q := Look(s, es.next);
                  if At(s, q) != 93 then Result(None, q, true)
                  else Result(Some(Array(if es.node.Some? then es.node.value else [])), q + 1, es.err)
  {
  }

  lemma ElementsUnfold(s: seq<byte>, i: nat, level: nat)
    requires i <= |s|
    ensures var v := Value(s, i, level);
            Elements(s, i, level) ==
              if v.node.None? then Result(None, v.next, true)
              else MoreElements(s, v.next, level, [v.node.value], v.err)
  {
  }

  lemma MoreElementsUnfold(s: seq<byte>, i: nat, level: nat, es: seq<Node>, err: bool)
    requires i <= |s|
    ensures var q := Look(s, i);
            if At(s, q) != 44 then MoreElements(s, i, level, es, err) == Result(Some(es), q, err)
            else
              var v := Value(s, q + 1, level);
              MoreElements(s, i, level, es, err) ==
                if v.node.None? then Result(None, v.next, true)
                else MoreElements(s, v.next, level, es + [v.node.value], err || v.err)
  {
  }

  lemma MembersUnfold(s: seq<byte>, i: nat, level: nat)
    requires i <= |s|
    ensures var m := PairAt(s, i, level);
            Members(s, i, level) ==
              if m.node.None? then Result(None, m.next, true)
              else MoreMembers(s, m.next, level, [m.node.value], m.err)
  {
  }

  lemma MoreMembersUnfold(s: seq<byte>, i: nat, level: nat, ms: seq<Member>, err: bool)
    requires i <= |s|
    ensures var q := Look(s, i);
            if At(s, q) != 44 then MoreMembers(s, i, level, ms, err) == Result(Some(ms), q, err)
            else
              var m := PairAt(s, q + 1, level);
              MoreMembers(s, i, level, ms, err) ==
                if m.node.None? then Result(None, m.next, true)
                else MoreMembers(s, m.next, level, ms + [m.node.value], err || m.err)
  {
  }

  method ScanNumber(s: seq<byte>, start: nat) returns (r: Option<nat>)
    requires start < |s|
    ensures r == NumberEnd(s, start)
  {
    hide DigitsEnd, FractionEnd, ExponentEnd, ReadsOn;
    var p := if s[start] == 45 then start + 1 else start;
    if At(s, p) == 48 {
      if ReadsOn(s, p + 1) {
        return None;
      }
      p := p + 1;
    } else if 49 <= At(s, p) <= 57 {
      p := DigitLoop(s, p + 1);
    } else {
      return None;
    }
    r := ScanFraction(s, p);
    if r.Some? {
      r := ScanExponent(s, r.value);
    }
  }

  method ScanFraction(s: seq<byte>, start: nat) returns (r: Option<nat>)
    requires start <= |s|
    ensures r == FractionEnd(s, start)
  {
    hide DigitsEnd;
    if At(s, start) == 46 {
      var p := DigitLoop(s, start + 1);
      return if p == start + 1 then None else Some(p);
    }
    return Some(start);
  }

  method ScanExponent(s: seq<byte>, start: nat) returns (r: Option<nat>)
    requires start <= |s|
    ensures r == ExponentEnd(s, start)
  {
    hide DigitsEnd;
    if At(s, start) == 101 || At(s, start) == 69 {
      var p := start + 1;
      if At(s, p) == 43 || At(s, p) == 45 {
        p := p + 1;
      }
      var q := DigitLoop(s, p);
      return if q == p then None else Some(q);
    }
    return Some(start);
  }

  method DigitLoop(s: seq<byte>, start: nat) returns (i: nat)
    requires start <= |s|
    ensures i == DigitsEnd(s, start)
  {
    i := start;
    while i < |s| && 48 <= s[i] <= 57
      invariant start <= i <= |s| && DigitsEnd(s, i) == DigitsEnd(s, start)
    {
      i := i + 1;
    }
  }

  // ---- the two passes over a string

  /** The first pass: whether all characters up to a closing quote are valid, and how many octets they
      stand for. */
  method CharsLength(s: seq<byte>, start: nat) returns (ok: bool, l: nat)
    requires start <= |s|
    ensures ok <==> Chars(s, start).Char?
    ensures ok ==> l == |Chars(s, start).out|
  {
    hide OneChar;
    var p := start;
    l := 0;
    while p < |s| && s[p] != QUOTE
      invariant start <= p <= |s| && (Chars(s, start).Invalid? <==> Chars(s, p).Invalid?)
      invariant Chars(s, start).Char? ==> |Chars(s, start).out| == l + |Chars(s, p).out|
      decreases |s| - p
    {
      var r := OneChar(s, p);
      if r.Invalid? {
        return false, l;
      }
      l := l + |r.out|;
      p := r.next;
    }
    ok := p < |s|;
  }

  /** The second pass: the octets, and the position of the closing quote. */
  method CopyChars(s: seq<byte>, start: nat) returns (dst: seq<byte>, p: nat)
    requires start <= |s| && Chars(s, start).Char?
    ensures Chars(s, start) == Char(dst, p)
  {
    hide OneChar;
    dst, p := [], start;
    while p < |s| && s[p] != QUOTE
      invariant start <= p <= |s| && Chars(s, p).Char?
      invariant Chars(s, start) == Char(dst + Chars(s, p).out, Chars(s, p).next)
      decreases |s| - p
    {
      var r := OneChar(s, p);
      dst := dst + r.out;
      p := r.next;
    }
  }
}
