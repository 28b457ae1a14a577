/** The framer on whole HTTP messages, src/comstack.c:349-442: a first line, header lines, a blank line and
    a body. What the framer makes of a message is stated by its lines, not by positions in a buffer. */
module HttpMessages {
  import opened Bytes
  import opened Pieces
  import opened Atoin
  import opened HttpFramer
  import opened HttpCodec

  predicate IsLine(t: seq<byte>) {
    forall k :: 0 <= k < |t| ==> !IsEol(t[k])
  }

  predicate AreLines(ls: seq<seq<byte>>) {
    forall k :: 0 <= k < |ls| ==> ls[k] != [] && IsLine(ls[k])
  }

  /** Lines with their line ends. */
  function Block(ls: seq<seq<byte>>): seq<byte> {
    if ls == [] then [] else ls[0] + (CRLF + Block(ls[1..]))
  }

  // ---- what the header lines say

  /** The content length, -1 if unknown, and whether the body is chunked. */
  datatype Notes = Notes(contentLen: int, chunked: bool)

  /** Where the value begins, if the name ends at `k`: blanks are skipped. */
  function ValueStart(line: seq<byte>, k: nat): (v: nat)
    requires k <= |line|
    ensures k <= v <= |line|
  {
    Find(line, k, |line|, IsNotSpace)
  }

  /** A header line adds to the notes; None for a content length that is no number within an int. */
  function Noted(line: seq<byte>, n: Notes): (r: Option<Notes>)
    ensures r.Some? && -1 <= n.contentLen ==> -1 <= r.value.contentLen
  {
    if MatchesAt(line, 0, TRANSFER_ENCODING) then
      Some(n.(chunked := n.chunked || MatchesAt(line, ValueStart(line, 18), CHUNKED)))
    else if MatchesAt(line, 0, CONTENT_LENGTH) then
      match Atoi(10, line, ValueStart(line, 15))
      case None => None
      case Some((digits, len)) => if digits == 0 then None else Some(n.(contentLen := len))
    else Some(n)
  }

  function NotedAll(ls: seq<seq<byte>>, n: Notes): (r: Option<Notes>)
    ensures r.Some? && -1 <= n.contentLen ==> -1 <= r.value.contentLen
  {
    if ls == [] then Some(n)
    else
      match Noted(ls[0], n)
      case None => None
      case Some(m) => NotedAll(ls[1..], m)
  }

  // ---- a line in a buffer is read as the line alone

  /** `line` is in the buffer at `j`, and its line end and two more octets follow. */
  predicate LineIn(s: seq<byte>, j: nat, line: seq<byte>) {
    OccursAt(s, j, line) && IsLine(line) && j + |line| + 4 <= |s| && s[j + |line|] == CR && s[j + |line| + 1] == LF
  }

  lemma MatchesInLine(s: seq<byte>, j: nat, line: seq<byte>, k: nat, text: seq<byte>)
    requires LineIn(s, j, line) && k <= |line| && IsLine(text)
    ensures MatchesAt(s, j + k, text) <==> MatchesAt(line, k, text)
  {
    if k + |text| <= |line| {
      forall m | k <= m < k + |text| ensures s[j + m] == line[m] {}
      forall m | 0 <= m < |text|
        ensures Lower(s[j + k + m]) == Lower(text[m]) <==> Lower(line[k + m]) == Lower(text[m])
      {
        assert s[j + (k + m)] == line[k + m];
      }
    } else {
      assert Lower(s[j + k + (|line| - k)]) != Lower(text[|line| - k]);
    }
  }

  lemma SpacesInLine(s: seq<byte>, j: nat, line: seq<byte>, k: nat)
    requires LineIn(s, j, line) && k <= |line|
    ensures SkipSpaces(s, j + k) == j + ValueStart(line, k)
  {
    var v := ValueStart(line, k);
    forall m | j + k <= m < j + v ensures s[m] == SPACE { assert s[j + (m - j)] == line[m - j]; }
    if v < |line| { assert s[j + v] == line[v]; }
  }

  lemma {:induction false} NumValMoved(s: seq<byte>, j: nat, line: seq<byte>, v: nat, e: nat)
    requires OccursAt(s, j, line) && v <= e <= |line|
    ensures NumVal(10, s, j + v, j + e) == NumVal(10, line, v, e)
    decreases e
  {
    if v < e {
      NumValMoved(s, j, line, v, e - 1);
      assert s[j + (e - 1)] == line[e - 1];
    }
  }

  lemma NumberInLine(s: seq<byte>, j: nat, line: seq<byte>, v: nat)
    requires LineIn(s, j, line) && v <= |line|
    ensures Atoi(10, s, j + v) == Atoi(10, line, v)
    ensures RunEnd(10, s, j + v) <= j + |line|
  {
    hide NumVal;
    var e := RunEnd(10, line, v);
    forall m | j + v <= m < j + e ensures IsDigit(10, s[m]) { assert s[j + (m - j)] == line[m - j]; }
    if e < |line| { assert s[j + e] == line[e]; }
    RunEndUnique(10, s, j + v, j + e);
    NumValMoved(s, j, line, v, e);
  }

  /** The token loop ends at the line end, and has seen "chunked" if the value begins with it. */
  lemma {:induction false} TokenEndInLine(s: seq<byte>, j: nat, line: seq<byte>, v: nat, i: nat, chunked: bool)
    requires LineIn(s, j, line) && v <= i <= |line|
    ensures TokenEnd(s, j + i, j + v, chunked) ==
              Some((j + |line|, chunked || (i <= v + 7 && MatchesAt(line, v, CHUNKED))))
    decreases |line| - i
  {
    hide MatchesAt;
    MatchesInLine(s, j, line, v, CHUNKED);
    ShortIsNoMatch(line, v, CHUNKED);
    if i < |line| {
      assert s[j + i] == line[i];
      TokenEndInLine(s, j, line, v, i + 1, chunked || (i == v + 7 && MatchesAt(line, v, CHUNKED)));
    }
  }

  lemma ShortIsNoMatch(line: seq<byte>, v: nat, text: seq<byte>)
    ensures MatchesAt(line, v, text) ==> v + |text| <= |line|
  {
  }

  lemma NamesAreLines()
    ensures IsLine(TRANSFER_ENCODING) && IsLine(CONTENT_LENGTH) && IsLine(CHUNKED)
  {
  }

  /** One turn of the header loop notes what the line says and goes on inside the line. */
  lemma LineTurn(s: seq<byte>, j: nat, line: seq<byte>, n: Notes)
    requires LineIn(s, j, line) && line != [] && -1 <= n.contentLen
    ensures var turn, m := HeaderLine(s, j, n.contentLen, n.chunked), Noted(line, n);
            if m.None? then turn == Done(-1)
            else turn.Continue? && j < turn.i <= j + |line| && Notes(turn.contentLen, turn.chunked) == m.value
  {
    hide LineIn, MatchesAt, TokenEnd, Atoi, SkipSpaces, IsLine;
    NamesAreLines();
    LineFits(s, j, line);
    MatchesInLine(s, j, line, 0, TRANSFER_ENCODING);
    MatchesInLine(s, j, line, 0, CONTENT_LENGTH);
    ShortIsNoMatch(line, 0, TRANSFER_ENCODING);
    ShortIsNoMatch(line, 0, CONTENT_LENGTH);
    hide EncodingLine, LengthLine, ValueStart;
    if MatchesAt(line, 0, TRANSFER_ENCODING) {
      EncodingTurn(s, j, line, n);
    } else if MatchesAt(line, 0, CONTENT_LENGTH) {
      LengthTurn(s, j, line, n.chunked);
    }
  }

  lemma EncodingTurn(s: seq<byte>, j: nat, line: seq<byte>, n: Notes)
    requires LineIn(s, j, line) && 18 <= |line| && -1 <= n.contentLen
    ensures EncodingLine(s, j, n.contentLen, n.chunked) ==
              Continue(j + |line|, n.contentLen, n.chunked || MatchesAt(line, ValueStart(line, 18), CHUNKED))
  {
    hide LineIn, MatchesAt, TokenEnd, SkipSpaces;
    SpacesInLine(s, j, line, 18);
    var v := ValueStart(line, 18);
    TokenEndInLine(s, j, line, v, v, n.chunked);
  }

  lemma LengthTurn(s: seq<byte>, j: nat, line: seq<byte>, chunked: bool)
    requires LineIn(s, j, line) && 15 <= |line|
    ensures var turn, number := LengthLine(s, j, chunked), Atoi(10, line, ValueStart(line, 15));
            if number.None? || number.value.0 == 0 then turn == Done(-1)
            else
              && turn.Continue? && turn.contentLen == number.value.1 && turn.chunked == chunked
              && j < turn.i <= j + |line|
  {
    hide LineIn, Atoi, SkipSpaces, ValueStart;
    LineFits(s, j, line);
    SpacesInLine(s, j, line, 15);
    NumberInLine(s, j, line, ValueStart(line, 15));
    DigitsEnd(s, j + ValueStart(line, 15));
  }

  lemma DigitsEnd(s: seq<byte>, i: nat)
    requires i <= |s|
    ensures Atoi(10, s, i).Some? ==> i + Atoi(10, s, i).value.0 == RunEnd(10, s, i)
  {
    hide NumVal;
  }

  lemma LineFits(s: seq<byte>, j: nat, line: seq<byte>)
    requires LineIn(s, j, line)
    ensures j + |line| + 4 <= |s| && IsLine(line)
  {
  }

  // ---- the header section

  /** Text without a line end is walked over, unless it crosses the header limit. */
  lemma WalkLine(s: seq<byte>, i: nat, k: nat, n: Notes, headOnly: bool)
    requires -1 <= n.contentLen && i <= k && k + 2 <= |s| && forall m :: i <= m < k ==> !IsEol(s[m])
    ensures Headers(s, i, n.contentLen, n.chunked, headOnly)
         == if k <= MAX_HEADER then Headers(s, k, n.contentLen, n.chunked, headOnly) else -1
  {
    if k <= MAX_HEADER + 1 {
      WalkTo(s, i, k, n.contentLen, n.chunked, headOnly);
    } else if i <= MAX_HEADER {
      WalkTo(s, i, MAX_HEADER + 1, n.contentLen, n.chunked, headOnly);
    }
  }

  /** One header line, from the line end before it to its own. */
  lemma OneLine(s: seq<byte>, i: nat, line: seq<byte>, n: Notes, headOnly: bool)
    requires OccursAt(s, i, CRLF) && LineIn(s, i + 2, line) && line != [] && -1 <= n.contentLen
    ensures var e, m := i + 2 + |line|, Noted(line, n);
            Headers(s, i, n.contentLen, n.chunked, headOnly) ==
              if m.Some? && e <= MAX_HEADER then Headers(s, e, m.value.contentLen, m.value.chunked, headOnly)
              else -1
  {
    hide HeaderLine, Headers, Noted;
    CrlfAt(s, i);
    NoEolInLine(s, i + 2, line);
    if i <= MAX_HEADER {
      HeadersAtLine(s, i, n.contentLen, n.chunked, headOnly);
      LineTurn(s, i + 2, line, n);
      var m := Noted(line, n);
      if m.Some? {
        WalkLine(s, HeaderLine(s, i + 2, n.contentLen, n.chunked).i, i + 2 + |line|, m.value, headOnly);
      }
    } else {
      PastLimit(s, i, n, headOnly);
    }
  }

  lemma PastLimit(s: seq<byte>, i: nat, n: Notes, headOnly: bool)
    requires -1 <= n.contentLen && MAX_HEADER < i && i + 2 <= |s|
    ensures Headers(s, i, n.contentLen, n.chunked, headOnly) == -1
  {
  }

  lemma NoEolInLine(s: seq<byte>, j: nat, line: seq<byte>)
    requires LineIn(s, j, line)
    ensures forall m :: j <= m < j + |line| ==> !IsEol(s[m])
  {
    forall m | j <= m < j + |line| ensures !IsEol(s[m]) { assert s[j + (m - j)] == line[m - j]; }
  }

  /** All header lines, and the blank line behind them. */
  lemma {:induction false} LinesWalk(s: seq<byte>, i: nat, ls: seq<seq<byte>>, n: Notes, headOnly: bool)
    requires AreLines(ls) && -1 <= n.contentLen && OccursAt(s, i, CRLF + (Block(ls) + CRLF))
    ensures i + |Block(ls)| + 4 <= |s|
    ensures var end, m := i + |Block(ls)| + 4, NotedAll(ls, n);
            Headers(s, i, n.contentLen, n.chunked, headOnly) ==
              if m.Some? && end - 4 <= MAX_HEADER then Body(s, end, m.value.contentLen, m.value.chunked, headOnly)
              else -1
    decreases |ls|
  {
    hide Headers, Body, OccursAt, Noted;
    OccursSplit(s, i, CRLF, Block(ls) + CRLF);
    if ls == [] {
      assert [] + CRLF == CRLF;
      BlankLine(s, i, n, headOnly);
    } else {
      LineParts(s, i + 2, ls);
      OneLine(s, i, ls[0], n, headOnly);
      var m := Noted(ls[0], n);
      if m.Some? {
        LinesWalk(s, i + 2 + |ls[0]|, ls[1..], m.value, headOnly);
      }
    }
  }

  lemma BlankLine(s: seq<byte>, i: nat, n: Notes, headOnly: bool)
    requires OccursAt(s, i, CRLF) && OccursAt(s, i + 2, CRLF) && -1 <= n.contentLen
    ensures i + 4 <= |s|
    ensures Headers(s, i, n.contentLen, n.chunked, headOnly)
         == if i <= MAX_HEADER then Body(s, i + 4, n.contentLen, n.chunked, headOnly) else -1
  {
    hide OccursAt, Body;
    CrlfAt(s, i);
    CrlfAt(s, i + 2);
  }

  /** The first of several lines, and where the others begin. */
  lemma LineParts(s: seq<byte>, j: nat, ls: seq<seq<byte>>)
    requires AreLines(ls) && ls != [] && OccursAt(s, j, Block(ls) + CRLF)
    ensures LineIn(s, j, ls[0]) && OccursAt(s, j + |ls[0]|, CRLF + (Block(ls[1..]) + CRLF))
    ensures |Block(ls)| == |ls[0]| + 2 + |Block(ls[1..])|
  {
    hide OccursAt;
    var line, rest := ls[0], Block(ls[1..]);
    Regroup(line, CRLF + rest, CRLF);
    Regroup(CRLF, rest, CRLF);
    OccursSplit(s, j, line, CRLF + (rest + CRLF));
    OccursSlice(s, j + |line|, CRLF + (rest + CRLF));
    OccursSplit(s, j + |line|, CRLF, rest + CRLF);
    CrlfAt(s, j + |line|);
  }

  // ---- the first line

  /** A status line, cut at its first blank, or any other first line. */
  datatype FirstLine = Status(version: seq<byte>, after: seq<byte>) | Other(line: seq<byte>)

  function FirstText(f: FirstLine): seq<byte> {
    match f
    case Status(version, after) => HTTP_SLASH + (version + ([SPACE] + after))
    case Other(line) => line
  }

  predicate IsFirst(f: FirstLine) {
    match f
    case Status(version, after) => IsLine(version) && SPACE !in version && IsLine(after)
    case Other(line) => IsLine(line) && |line| >= 2 && !(HTTP_SLASH <= line && SPACE in line[5..])
  }

  /** Whether only a head follows, and the content length before the headers are read: a status line of
      class 1 or with code 204 or 304 has no body; another status line leaves it open; a request has
      none unless a header says so. */
  function Announced(f: FirstLine, headOnly: bool): (r: Start)
    ensures -1 <= r.contentLen
  {
    match f
    case Other(_) => Start(headOnly, 0)
    case Status(_, after) =>
      if headOnly || ['1' as int] <= after || NO_CONTENT <= after || NOT_MODIFIED <= after then Start(true, 0)
      else Start(false, -1)
  }

  /** Every line of two octets or more is one of the two. */
  lemma EveryFirstLine(line: seq<byte>) returns (f: FirstLine)
    requires IsLine(line) && |line| >= 2
    ensures IsFirst(f) && FirstText(f) == line
  {
    if HTTP_SLASH <= line && SPACE in line[5..] {
      var k := Find(line, 5, |line|, IsSpace);
      f := Status(line[5..k], line[k + 1..]);
      assert line == line[..5] + (line[5..k] + ([line[k]] + line[k + 1..]));
    } else {
      f := Other(line);
    }
  }

  predicate IsSpace(b: byte) { b == SPACE }

  /** A text that has no line end occurs in front of a line end exactly if what is there begins with it. */
  lemma BeginsInLine(s: seq<byte>, j: nat, t: seq<byte>, text: seq<byte>)
    requires OccursAt(s, j, t + CRLF) && IsLine(text)
    ensures OccursAt(s, j, text) <==> text <= t
  {
    OccursSplit(s, j, t, CRLF);
    CrlfAt(s, j + |t|);
    if |text| <= |t| {
      assert t[..|text|] == s[j..j + |text|] by {
        forall k | 0 <= k < |text| ensures t[k] == s[j..j + |text|][k] { assert s[j + k] == t[k]; }
      }
    } else {
      assert s[j + |t|] != text[|t|];
    }
  }

  lemma CodesAreLines()
    ensures IsLine(HTTP_SLASH) && IsLine(NO_CONTENT) && IsLine(NOT_MODIFIED) && IsLine(['1' as int])
  {
  }

  /** The first line is found and classified. */
  lemma FirstClass(s: seq<byte>, f: FirstLine, headOnly: bool)
    requires IsFirst(f) && OccursAt(s, 0, FirstText(f) + CRLF)
    ensures var e := |FirstText(f)|;
            && 2 <= e < |s| && LineEnd(s, 0) == e && Classify(s, e, headOnly) == Announced(f, headOnly)
            && forall m :: 0 <= m < e ==> !IsEol(s[m])
  {
    hide OccursAt;
    var line := FirstText(f);
    CodesAreLines();
    FirstIsLine(f);
    OccursSplit(s, 0, line, CRLF);
    CrlfAt(s, |line|);
    forall m | 0 <= m < |line| ensures !IsEol(s[m]) { assert s[m] == s[0..|line|][m]; }
    LineEndUnique(s, 0, |line|);
    BeginsInLine(s, 0, line, HTTP_SLASH);
    if f.Status? && !headOnly {
      StatusClass(s, f.version, f.after);
    } else if !headOnly && HTTP_SLASH <= line {
      forall m | 5 <= m < |line| ensures s[m] != SPACE {
        assert s[m] == s[0..|line|][m] && line[m] == line[5..][m - 5];
      }
    }
  }

  lemma FirstIsLine(f: FirstLine)
    requires IsFirst(f)
    ensures IsLine(FirstText(f)) && |FirstText(f)| >= 2
  {
  }

  lemma StatusClass(s: seq<byte>, version: seq<byte>, after: seq<byte>)
    requires IsFirst(Status(version, after)) && OccursAt(s, 0, FirstText(Status(version, after)) + CRLF)
    ensures |FirstText(Status(version, after))| < |s|
    ensures Classify(s, |FirstText(Status(version, after))|, false) == Announced(Status(version, after), false)
  {
    hide OccursAt, FirstSpace;
    CodesAreLines();
    StatusParts(s, version, after);
    var j, e := 5 + |version|, |FirstText(Status(version, after))|;
    forall m | 5 <= m < j ensures s[m] != SPACE { assert s[m] == s[5..j][m - 5]; }
    SpaceFound(s, 5, j, e);
    BeginsInLine(s, j + 1, after, NO_CONTENT);
    BeginsInLine(s, j + 1, after, NOT_MODIFIED);
    BeginsInLine(s, j + 1, after, ['1' as int]);
    OneOccurs(s, j + 1, '1' as int);
  }

  lemma OneOccurs(s: seq<byte>, i: nat, b: byte)
    ensures OccursAt(s, i, [b]) <==> i < |s| && s[i] == b
  {
    if i < |s| && s[i] == b { assert s[i + 0] == [b][0]; }
    if OccursAt(s, i, [b]) { assert s[i + 0] == [b][0]; }
  }

  lemma StatusParts(s: seq<byte>, version: seq<byte>, after: seq<byte>)
    requires OccursAt(s, 0, FirstText(Status(version, after)) + CRLF)
    ensures var j := 5 + |version|;
            && j + 3 + |after| <= |s| && OccursAt(s, 0, HTTP_SLASH) && s[5..j] == version && s[j] == SPACE
            && OccursAt(s, j + 1, after + CRLF)
  {
    hide OccursAt;
    var j := 5 + |version|;
    Regroup(HTTP_SLASH, version + ([SPACE] + after), CRLF);
    OccursSplit(s, 0, HTTP_SLASH, (version + ([SPACE] + after)) + CRLF);
    Regroup(version, [SPACE] + after, CRLF);
    OccursSplit(s, 5, version, ([SPACE] + after) + CRLF);
    Regroup([SPACE], after, CRLF);
    OccursSplit(s, j, [SPACE], after + CRLF);
    OccursOne(s, j, SPACE);
    OccursSlice(s, j + 1, after + CRLF);
  }

  lemma SpaceFound(s: seq<byte>, i: nat, v: nat, e: nat)
    requires i <= v < e <= |s| && s[v] == SPACE && forall m :: i <= m < v ==> s[m] != SPACE
    ensures FirstSpace(s, i, e) == v
  {
  }

  // ---- the whole message

  /** Everything up to and including the blank line. */
  function HeadText(f: FirstLine, ls: seq<seq<byte>>): seq<byte> {
    FirstText(f) + (CRLF + (Block(ls) + CRLF))
  }

  /** What the lines of a message announce; None if a content length is bad. */
  function Announcement(f: FirstLine, ls: seq<seq<byte>>, headOnly: bool): (r: Option<Notes>)
    ensures r.Some? ==> -1 <= r.value.contentLen
  {
    NotedAll(ls, Notes(Announced(f, headOnly).contentLen, false))
  }

  /** Every message, whatever follows its head: it is rejected for a bad content length and for a head
      beyond the limit, and otherwise the body begins behind the head as announced. */
  lemma MessageVerdict(f: FirstLine, ls: seq<seq<byte>>, rest: seq<byte>, headOnly: bool)
    requires IsFirst(f) && AreLines(ls)
    ensures var head, m := HeadText(f, ls), Announcement(f, ls, headOnly);
            CompleteHttp(head + rest, headOnly) ==
              if m.None? || |head| - 4 > MAX_HEADER then -1
              else Body(head + rest, |head|, m.value.contentLen, m.value.chunked, Announced(f, headOnly).headOnly)
  {
    hide Headers, Body, Block, OccursAt, FirstText, Classify, NotedAll;
    var line, tail, st := FirstText(f), Block(ls) + CRLF, Announced(f, headOnly);
    var s, n := HeadText(f, ls) + rest, Notes(st.contentLen, false);
    MessageParts(line, tail, rest);
    FirstClass(s, f, headOnly);
    WalkLine(s, 2, |line|, n, st.headOnly);
    LinesWalk(s, |line|, ls, n, st.headOnly);
  }

  lemma MessageParts(line: seq<byte>, tail: seq<byte>, rest: seq<byte>)
    ensures var s := line + (CRLF + tail) + rest;
            OccursAt(s, 0, line + CRLF) && OccursAt(s, |line|, CRLF + tail)
  {
    hide OccursAt;
    var s := line + (CRLF + tail) + rest;
    Regroup(line, CRLF + tail, rest);
    Whole(s);
    OccursSplit(s, 0, line + (CRLF + tail), rest);
    Regroup(line, CRLF, tail);
    OccursSplit(s, 0, line + CRLF, tail);
    OccursSplit(s, 0, line, CRLF + tail);
  }

  lemma Whole(s: seq<byte>)
    ensures OccursAt(s, 0, s)
  {
  }

  /** A message whose head is all that is awaited. */
  lemma HeadOnlyMessage(f: FirstLine, ls: seq<seq<byte>>, rest: seq<byte>, headOnly: bool)
    requires IsFirst(f) && AreLines(ls) && Announced(f, headOnly).headOnly
    ensures var head := HeadText(f, ls);
            CompleteHttp(head + rest, headOnly) ==
              if Announcement(f, ls, headOnly).None? || |head| - 4 > MAX_HEADER then -1 else |head|
  {
    hide HeadText, CompleteHttp, Announcement;
    MessageVerdict(f, ls, rest, headOnly);
  }

  /** A message with a known length: the framer waits for that many octets. */
  lemma SizedMessage(f: FirstLine, ls: seq<seq<byte>>, rest: seq<byte>, n: nat)
    requires IsFirst(f) && AreLines(ls) && !Announced(f, false).headOnly
    requires Announcement(f, ls, false) == Some(Notes(n, false))
    ensures var head := HeadText(f, ls);
            CompleteHttp(head + rest, false) ==
              if |head| - 4 > MAX_HEADER || |head| + n > INT_MAX then -1 else if |rest| >= n then |head| + n else 0
  {
    hide HeadText, CompleteHttp, Announcement;
    MessageVerdict(f, ls, rest, false);
  }

  /** A response that says nothing about its length is never complete. */
  lemma UnsizedMessage(f: FirstLine, ls: seq<seq<byte>>, rest: seq<byte>)
    requires IsFirst(f) && AreLines(ls) && !Announced(f, false).headOnly
    requires Announcement(f, ls, false) == Some(Notes(-1, false))
    ensures var head := HeadText(f, ls);
            CompleteHttp(head + rest, false) == if |head| - 4 > MAX_HEADER then -1 else 0
  {
    hide HeadText, CompleteHttp, Announcement;
    MessageVerdict(f, ls, rest, false);
  }

  // ---- what the lines announce, line by line

  predicate SaysChunked(line: seq<byte>) {
    MatchesAt(line, 0, TRANSFER_ENCODING) && MatchesAt(line, ValueStart(line, 18), CHUNKED)
  }

  predicate SaysLength(line: seq<byte>) {
    MatchesAt(line, 0, CONTENT_LENGTH)
  }

  /** The number of a Content-Length line. */
  function LengthSaid(line: seq<byte>): Option<nat>
    requires SaysLength(line)
  {
    var number := Atoi(10, line, ValueStart(line, 15));
    if number.None? || number.value.0 == 0 then None else Some(number.value.1)
  }

  predicate BadLength(line: seq<byte>) { SaysLength(line) && LengthSaid(line).None? }

  /** Line `k` is the last that says a length. */
  predicate LastLength(ls: seq<seq<byte>>, k: nat)
    requires k < |ls|
  {
    SaysLength(ls[k]) && forall j :: k < j < |ls| ==> !SaysLength(ls[j])
  }

  lemma NotedIs(line: seq<byte>, n: Notes)
    ensures BadLength(line) ==> Noted(line, n).None?
    ensures !BadLength(line) ==>
              Noted(line, n) == Some(Notes(if SaysLength(line) then LengthSaid(line).value else n.contentLen,
                                           n.chunked || SaysChunked(line)))
  {
    hide Atoi;
    NotBoth(line);
  }

  lemma NotBoth(line: seq<byte>)
    ensures !(MatchesAt(line, 0, TRANSFER_ENCODING) && MatchesAt(line, 0, CONTENT_LENGTH))
  {
    if MatchesAt(line, 0, TRANSFER_ENCODING) { assert Lower(line[0 + 0]) == Lower(TRANSFER_ENCODING[0]); }
    if MatchesAt(line, 0, CONTENT_LENGTH) { assert Lower(line[0 + 0]) == Lower(CONTENT_LENGTH[0]); }
  }

  /** The body is chunked if some line says so; the last content length counts; one bad length spoils all. */
  lemma {:induction false} NotedExactly(ls: seq<seq<byte>>, n: Notes)
    ensures var m := NotedAll(ls, n);
            && (m.None? <==> exists k :: 0 <= k < |ls| && BadLength(ls[k]))
            && (m.Some? ==> (m.value.chunked <==> n.chunked || exists k :: 0 <= k < |ls| && SaysChunked(ls[k])))
            && (m.Some? && (forall k :: 0 <= k < |ls| ==> !SaysLength(ls[k])) ==> m.value.contentLen == n.contentLen)
    ensures forall k :: 0 <= k < |ls| && LastLength(ls, k) ==>
              NotedAll(ls, n).None? || LengthSaid(ls[k]) == Some(NotedAll(ls, n).value.contentLen)
    decreases |ls|
  {
    hide Noted, SaysLength, SaysChunked, LengthSaid;
    if ls != [] {
      var line, rest := ls[0], ls[1..];
      NotedIs(line, n);
      assert forall k :: 0 < k < |ls| ==> ls[k] == rest[k - 1];
      assert forall k :: 0 <= k < |rest| ==> rest[k] == ls[k + 1];
      if !BadLength(line) {
        NotedExactly(rest, Noted(line, n).value);
        assert forall k :: 0 < k < |ls| && LastLength(ls, k) ==> LastLength(rest, k - 1);
      }
    }
  }

  /** A line that names neither a chunked coding nor a content length might as well be missing. */
  lemma {:induction false} SilentLine(a: seq<seq<byte>>, line: seq<byte>, b: seq<seq<byte>>, n: Notes)
    requires !SaysChunked(line) && !SaysLength(line)
    ensures NotedAll(a + [line] + b, n) == NotedAll(a + b, n)
    decreases |a|
  {
    hide Noted, SaysChunked, SaysLength;
    if a == [] {
      NotedIs(line, n);
      assert ([] + [line] + b)[0] == line && ([] + [line] + b)[1..] == b && [] + b == b;
    } else {
      var m := Noted(a[0], n);
      assert (a + [line] + b)[1..] == a[1..] + [line] + b && (a + b)[1..] == a[1..] + b;
      if m.Some? { SilentLine(a[1..], line, b, m.value); }
    }
  }

  /** A header line: name, colon, blanks, and a value that does not begin with a blank. */
  function FieldLine(name: seq<byte>, blanks: seq<byte>, value: seq<byte>): seq<byte> {
    name + ([COLON] + (blanks + value))
  }

  predicate AreBlanks(t: seq<byte>) { forall k :: 0 <= k < |t| ==> t[k] == SPACE }

  lemma FieldMatches(name: seq<byte>, known: seq<byte>, tail: seq<byte>)
    requires EqualsIgnoreCase(name, known)
    ensures MatchesAt(name + ([COLON] + tail), 0, known + [COLON])
  {
    var line := name + ([COLON] + tail);
    forall k | 0 <= k < |known| + 1 ensures Lower(line[0 + k]) == Lower((known + [COLON])[k]) {
      if k < |known| { assert Lower(name[0 + k]) == Lower(known[k]); }
    }
  }

  lemma FieldValue(name: seq<byte>, blanks: seq<byte>, value: seq<byte>)
    requires AreBlanks(blanks) && (value != [] ==> value[0] != SPACE)
    ensures var line := FieldLine(name, blanks, value);
            && ValueStart(line, |name| + 1) == |name| + 1 + |blanks| && OccursAt(line, |name| + 1 + |blanks|, value)
            && |line| == |name| + 1 + |blanks| + |value|
  {
    var line := FieldLine(name, blanks, value);
    var v := |name| + 1 + |blanks|;
    forall m | |name| + 1 <= m < v ensures !IsNotSpace(line[m]) { assert line[m] == blanks[m - |name| - 1]; }
    if value != [] { assert line[v] == value[0]; }
    FindIs(line, |name| + 1, |line|, IsNotSpace, v);
  }

  /** A Transfer-Encoding line says that the body is chunked if and only if its value begins with that word. */
  lemma EncodingSays(name: seq<byte>, blanks: seq<byte>, value: seq<byte>)
    requires EqualsIgnoreCase(name, TRANSFER_ENCODING_NAME) && AreBlanks(blanks) && (value != [] ==> value[0] != SPACE)
    ensures var line := FieldLine(name, blanks, value);
            !SaysLength(line) && (SaysChunked(line) <==> MatchesAt(value, 0, CHUNKED))
  {
    hide ValueStart;
    var line := FieldLine(name, blanks, value);
    FieldMatches(name, TRANSFER_ENCODING_NAME, blanks + value);
    FieldValue(name, blanks, value);
    NotBoth(line);
    MatchesShift(line, 18 + |blanks|, value, CHUNKED);
  }

  lemma MatchesShift(s: seq<byte>, i: nat, t: seq<byte>, text: seq<byte>)
    requires OccursAt(s, i, t) && |s| == i + |t|
    ensures MatchesAt(s, i, text) <==> MatchesAt(t, 0, text)
  {
    forall k | 0 <= k < |text| && |text| <= |t| ensures s[i + k] == t[k] {}
  }

  /** A Content-Length line says the number its value begins with. */
  lemma LengthSays(name: seq<byte>, blanks: seq<byte>, digits: seq<byte>, other: seq<byte>)
    requires EqualsIgnoreCase(name, CONTENT_LENGTH_NAME) && AreBlanks(blanks)
    requires IsNumeral(10, digits) && (other != [] ==> !IsDigit(10, other[0]))
    ensures var line := FieldLine(name, blanks, digits + other);
            && !SaysChunked(line) && SaysLength(line)
            && LengthSaid(line) == if Numeral(10, digits) <= INT_MAX then Some(Numeral(10, digits)) else None
  {
    hide ValueStart, Atoi, FieldLine, MatchesAt, OccursAt;
    var line := FieldLine(name, blanks, digits + other);
    assert IsDigit(10, digits[0]);
    assert MatchesAt(line, 0, CONTENT_LENGTH) by {
      FieldMatches(name, CONTENT_LENGTH_NAME, blanks + (digits + other));
      FieldIs(name, blanks, digits + other);
    }
    FieldValue(name, blanks, digits + other);
    NotBoth(line);
    NumberSays(line, 15 + |blanks|, digits, other);
  }

  lemma FieldIs(name: seq<byte>, blanks: seq<byte>, value: seq<byte>)
    ensures FieldLine(name, blanks, value) == name + ([COLON] + (blanks + value))
  {
  }

  lemma NumberSays(line: seq<byte>, v: nat, digits: seq<byte>, other: seq<byte>)
    requires OccursAt(line, v, digits + other) && |line| == v + |digits| + |other|
    requires IsNumeral(10, digits) && (other != [] ==> !IsDigit(10, other[0]))
    ensures Atoi(10, line, v) == if Numeral(10, digits) <= INT_MAX then Some((|digits|, Numeral(10, digits))) else None
  {
    hide NumVal;
    OccursSplit(line, v, digits, other);
    forall k | v <= k < v + |digits| ensures IsDigit(10, line[k]) { assert line[v + (k - v)] == digits[k - v]; }
    if other != [] { assert line[v + |digits| + 0] == other[0]; }
    RunEndUnique(10, line, v, v + |digits|);
    NumValShift(10, line, v, digits, |digits|);
  }

  /** One without a number is bad. */
  lemma NoLengthSaid(name: seq<byte>, blanks: seq<byte>, value: seq<byte>)
    requires EqualsIgnoreCase(name, CONTENT_LENGTH_NAME) && AreBlanks(blanks)
    requires value != [] ==> value[0] != SPACE && !IsDigit(10, value[0])
    ensures BadLength(FieldLine(name, blanks, value))
  {
    hide ValueStart, NumVal;
    var line, v := FieldLine(name, blanks, value), 15 + |blanks|;
    FieldMatches(name, CONTENT_LENGTH_NAME, blanks + value);
    FieldValue(name, blanks, value);
    if value != [] { assert line[v + 0] == value[0]; }
    RunEndUnique(10, line, v, v);
  }

  /** A line with another name says nothing. */
  lemma OtherSays(name: seq<byte>, tail: seq<byte>)
    requires COLON !in name && !EqualsIgnoreCase(name, CONTENT_LENGTH_NAME)
    requires !EqualsIgnoreCase(name, TRANSFER_ENCODING_NAME)
    ensures !SaysChunked(name + ([COLON] + tail)) && !SaysLength(name + ([COLON] + tail))
  {
    var line := name + ([COLON] + tail);
    if MatchesAt(line, 0, TRANSFER_ENCODING) { SameName(name, tail, TRANSFER_ENCODING_NAME); }
    if MatchesAt(line, 0, CONTENT_LENGTH) { SameName(name, tail, CONTENT_LENGTH_NAME); }
  }

  lemma SameName(name: seq<byte>, tail: seq<byte>, known: seq<byte>)
    requires COLON !in name && MatchesAt(name + ([COLON] + tail), 0, known + [COLON])
    requires forall k :: 0 <= k < |known| ==> Lower(known[k]) != COLON
    ensures EqualsIgnoreCase(name, known)
  {
    var line, text := name + ([COLON] + tail), known + [COLON];
    assert line[|name|] == COLON;
    assert Lower(line[0 + |known|]) == Lower(text[|known|]);
    forall k | 0 <= k < |known| ensures line[k] != COLON { assert Lower(line[0 + k]) == Lower(text[k]); }
    forall k | 0 <= k < |name| ensures line[k] != COLON { assert line[k] == name[k]; }
    forall k | 0 <= k < |known| ensures Lower(name[0 + k]) == Lower(known[k]) {
      assert Lower(line[0 + k]) == Lower(text[k]);
    }
  }
}
