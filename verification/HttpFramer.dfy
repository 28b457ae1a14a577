/** HTTP message framing, src/comstack.c. Positions are indices into the whole buffer `s`, whose
    length is what the C code calls `len`. */
module HttpFramer {
  import opened Bytes
  import opened Pieces
  import opened Atoin

  const MAX_HEADER := 8192
  const TRANSFER_ENCODING_NAME: seq<byte> := Ascii("Transfer-Encoding")
  const CONTENT_LENGTH_NAME: seq<byte> := Ascii("Content-Length")
  const TRANSFER_ENCODING: seq<byte> := TRANSFER_ENCODING_NAME + [58]
  const CONTENT_LENGTH: seq<byte> := CONTENT_LENGTH_NAME + [58]
  const CHUNKED: seq<byte> := Ascii("chunked")
  const HTTP_SLASH: seq<byte> := Ascii("HTTP/")
  const NO_CONTENT: seq<byte> := Ascii("204")
  const NOT_MODIFIED: seq<byte> := Ascii("304")

  predicate IsEol(b: byte) {
    b == CR || b == LF
  }

  /** skip_crlf: the position after a line end at `i`, or `i` itself if there is none. */
  function SkipCrlf(s: seq<byte>, i: nat): (j: nat)
    ensures i <= j && (j > i ==> j <= |s|)
  {
    if i >= |s| then i
    else if s[i] == CR && i + 1 < |s| && s[i + 1] == LF then i + 2
    else if s[i] == LF then i + 1
    else i
  }

  function SkipSpaces(s: seq<byte>, i: nat): (j: nat)
    requires i <= |s|
    ensures i <= j <= |s|
    ensures j < |s| ==> s[j] != SPACE
    ensures forall k :: i <= k < j ==> s[k] == SPACE
    decreases |s| - i
  {
    if i < |s| && s[i] == SPACE then SkipSpaces(s, i + 1) else i
  }

  // ---- chunked bodies

  /** Position after the first line end at or after `i`; the scan gives up at the last octet. */
  function SeekLine(s: seq<byte>, i: nat): (r: Option<nat>)
    ensures r.Some? ==> i < r.value <= |s|
    decreases |s| - i
  {
    if i + 1 >= |s| then None
    else if SkipCrlf(s, i) != i then Some(SkipCrlf(s, i))
    else SeekLine(s, i + 1)
  }

  /** Trailer section: ends after two consecutive line ends. */
  function Trailers(s: seq<byte>, i: nat): (r: int)
    ensures 0 <= r <= |s|
    decreases |s| - i
  {
    if i >= |s| then 0
    else
      var j := SkipCrlf(s, i);
      if j == i then Trailers(s, i + 1)
      else if SkipCrlf(s, j) != j then SkipCrlf(s, j)
      else Trailers(s, j)
  }

  /** One turn of a scanning loop: a verdict, or the position where the next turn starts. */
  datatype Turn = Verdict(r: int) | Next(i: nat)

  /** One chunk, from its size line to the line end after its data. */
  function Chunk(s: seq<byte>, i: nat): (r: Turn)
    requires i < |s|
    ensures r.Verdict? ==> -1 <= r.r <= |s|
    ensures r.Next? ==> i < r.i <= |s|
  {
    match Atoi(16, s, i)
    case None => Verdict(-1)
    case Some((n, size)) =>
      if n == 0 then Verdict(-1)
      else if size == 0 then Verdict(Trailers(s, i + n))
      else
        match SeekLine(s, i + n)
        case None => Verdict(0)
        case Some(data) =>
          if size > INT_MAX - data then Verdict(-1)
          else if data + size + 2 >= |s| || SkipCrlf(s, data + size) == data + size then Verdict(0)
          else Next(SkipCrlf(s, data + size))
  }

  /** cs_read_chunks from position `i`. */
  function Chunks(s: seq<byte>, i: nat): (r: int)
    ensures -1 <= r <= |s|
    decreases |s| - i
  {
    if i >= |s| then 0
    else
      match Chunk(s, i)
      case Verdict(r) => r
      case Next(j) => Chunks(s, j)
  }

  // ---- header section

  /** First line end octet, or |s|. */
  function LineEnd(s: seq<byte>, i: nat): (j: nat)
    requires i <= |s|
    ensures i <= j <= |s|
    ensures forall k :: i <= k < j ==> !IsEol(s[k])
    ensures j < |s| ==> IsEol(s[j])
    decreases |s| - i
  {
    if i < |s| && !IsEol(s[i]) then LineEnd(s, i + 1) else i
  }

  /** First space in s[j..end], or `end`. */
  function FirstSpace(s: seq<byte>, j: nat, end: nat): (k: nat)
    requires end <= |s|
    ensures j < end ==> j <= k <= end
    ensures j >= end ==> k == end
    ensures k < end ==> s[k] == SPACE
    ensures forall m :: j <= m < k ==> s[m] != SPACE
    decreases end - j
  {
    if j < end && s[j] != SPACE then FirstSpace(s, j + 1, end) else if j < end then j else end
  }

  /** What the status line says about the body: head_only, or no known content length (-1). */
  datatype Start = Start(headOnly: bool, contentLen: int)

  function Classify(s: seq<byte>, end: nat, headOnly: bool): (r: Start)
    requires end < |s|
    ensures r.contentLen == 0 || r.contentLen == -1
  {
    if headOnly || !OccursAt(s, 0, HTTP_SLASH) then Start(headOnly, 0)
    else
      var j := FirstSpace(s, 5, end);
      if j == end then Start(false, 0)
      else if s[j + 1] == '1' as int || OccursAt(s, j + 1, NO_CONTENT) || OccursAt(s, j + 1, NOT_MODIFIED)
      then Start(true, 0)
      else Start(false, -1)
  }

  /** The Transfer-Encoding value loop: where its line ends, and whether "chunked" was seen. */
  function TokenEnd(s: seq<byte>, i: nat, start: nat, chunked: bool): (r: Option<(nat, bool)>)
    ensures r.Some? ==> i <= r.value.0 <= |s|
    decreases |s| - i
  {
    if i + 2 >= |s| then None
    else
      var c := chunked || (i == start + 7 && MatchesAt(s, start, CHUNKED));
      if SkipCrlf(s, i) != i then Some((i, c)) else TokenEnd(s, i + 1, start, c)
  }

  /** The verdict once the header section has ended at `i`. */
  function Body(s: seq<byte>, i: nat, contentLen: int, chunked: bool, headOnly: bool): (r: int)
    requires -1 <= contentLen
    requires i <= |s|
    ensures -1 <= r <= |s|
  {
    if headOnly then i
    else if chunked then Chunks(s, i)
    else if contentLen == -1 then 0
    else if contentLen > INT_MAX - i then -1
    else if |s| >= i + contentLen then i + contentLen
    else 0
  }

  /** One turn of the header loop: a verdict, or the loop variables for the next turn. */
  datatype HeaderTurn = Done(r: int) | Continue(i: nat, contentLen: int, chunked: bool)

  /** The value of a Transfer-Encoding line at `j`. */
  function EncodingLine(s: seq<byte>, j: nat, contentLen: int, chunked: bool): (r: HeaderTurn)
    requires j + 18 <= |s|
    ensures r.Done? ==> r.r == 0
    ensures r.Continue? ==> j + 18 <= r.i && r.contentLen == contentLen
  {
    var v := SkipSpaces(s, j + 18);
    match TokenEnd(s, v, v, chunked)
    case None => Done(0)
    case Some((e, c)) => Continue(e, contentLen, c)
  }

  /** The value of a Content-Length line at `j`. */
  function LengthLine(s: seq<byte>, j: nat, chunked: bool): (r: HeaderTurn)
    requires j + 15 <= |s|
    ensures r.Done? ==> r.r == 0 || r.r == -1
    ensures r.Continue? ==> j + 16 <= r.i && 0 <= r.contentLen
  {
    var v := SkipSpaces(s, j + 15);
    if v == |s| then Done(0)
    else
      match Atoi(10, s, v)
      case None => Done(-1)
      case Some((n, len)) => if n == 0 then Done(-1) else Continue(v + n, len, chunked)
  }

  /** A header line that starts at `j`; only Transfer-Encoding and Content-Length are looked at, and
      only when enough octets follow. */
  function HeaderLine(s: seq<byte>, j: nat, contentLen: int, chunked: bool): (r: HeaderTurn)
    ensures r.Done? ==> r.r == 0 || r.r == -1
    ensures r.Continue? ==> j < r.i && (r.contentLen == contentLen || 0 <= r.contentLen)
  {
    if j + 19 < |s| && MatchesAt(s, j, TRANSFER_ENCODING) then EncodingLine(s, j, contentLen, chunked)
    else if j + 16 < |s| && MatchesAt(s, j, CONTENT_LENGTH) then LengthLine(s, j, chunked)
    else Continue(j + 1, contentLen, chunked)
  }

  /** The main loop of cs_complete_http. */
  function Headers(s: seq<byte>, i: nat, contentLen: int, chunked: bool, headOnly: bool): (r: int)
    requires -1 <= contentLen
    ensures -1 <= r <= |s|
    decreases |s| - i
  {
    if i + 2 > |s| then 0
    else if i > MAX_HEADER then -1
    else
      var j := SkipCrlf(s, i);
      if j == i then Headers(s, i + 1, contentLen, chunked, headOnly)
      else if SkipCrlf(s, j) != j then Body(s, SkipCrlf(s, j), contentLen, chunked, headOnly)
      else
        match HeaderLine(s, j, contentLen, chunked)
        case Done(r) => r
        case Continue(i', len, c) => Headers(s, i', len, c, headOnly)
  }

  /** cs_complete_http: 0 incomplete, -1 protocol error, otherwise the length of the message. */
  function CompleteHttp(s: seq<byte>, headOnly: bool): (r: int)
    ensures -1 <= r <= |s|
  {
    var end := LineEnd(s, 0);
    if end == |s| then 0
    else
      var start := Classify(s, end, headOnly);
      Headers(s, 2, start.contentLen, false, start.headOnly)
  }

  // ---- verdicts under extension of the buffer

  /** `b` may follow the verdict `a` on `n` octets when the buffer grows: acceptance is final, a
      rejected buffer is never accepted, and the rejection itself is final unless the buffer is long
      enough for the header limit to come into play. */
  predicate Consistent(n: nat, a: int, b: int) {
    && (a > 0 ==> b == a)
    && (a == -1 ==> b <= 0)
    && (a == -1 && n <= MAX_HEADER + 2 ==> b == -1)
  }

  lemma {:induction false} SkipSpacesStable(s: seq<byte>, t: seq<byte>, i: nat)
    requires s <= t && i <= |s|
    ensures SkipSpaces(s, i) <= SkipSpaces(t, i)
    ensures SkipSpaces(s, i) < |s| ==> SkipSpaces(t, i) == SkipSpaces(s, i)
    decreases |s| - i
  {
    if i < |s| && s[i] == SPACE { SkipSpacesStable(s, t, i + 1); }
  }

  lemma {:induction false} SeekLineStable(s: seq<byte>, t: seq<byte>, i: nat)
    requires s <= t
    ensures SeekLine(s, i).Some? ==> SeekLine(t, i) == SeekLine(s, i)
    decreases |s| - i
  {
    if i + 1 < |s| && SkipCrlf(s, i) == i { SeekLineStable(s, t, i + 1); }
  }

  lemma TrailersStep(s: seq<byte>, p: nat)
    ensures p >= |s| ==> Trailers(s, p) == 0
    ensures p < |s| ==>
              var j := SkipCrlf(s, p);
              var k := SkipCrlf(s, j);
              Trailers(s, p) == if j == p then Trailers(s, p + 1) else if k != j then k else Trailers(s, j)
  {
    hide SkipCrlf;
  }

  lemma {:induction false} TrailersStable(s: seq<byte>, t: seq<byte>, i: nat)
    requires s <= t
    ensures Trailers(s, i) != 0 ==> Trailers(t, i) == Trailers(s, i)
    decreases |s| - i
  {
    hide Trailers, SkipCrlf;
    TrailersStep(s, i);
    TrailersStep(t, i);
    if i < |s| {
      var j := SkipCrlf(s, i);
      if j == i {
        TrailersStep(s, i + 1);
        TrailersStable(s, t, i + 1);
      } else {
        TrailersStable(s, t, j);
        TrailersStep(s, j);
        TrailersStep(s, j + 1);
        SkipCrlfStable(s, t, j);
      }
      SkipCrlfStable(s, t, i);
    }
  }

  /** A line end can only grow where the buffer ends in CR. */
  lemma SkipCrlfStable(s: seq<byte>, t: seq<byte>, i: nat)
    requires s <= t
    ensures i + 1 < |s| || SkipCrlf(s, i) != i ==> SkipCrlf(t, i) == SkipCrlf(s, i)
  {
  }

  lemma ChunkStable(s: seq<byte>, t: seq<byte>, i: nat)
    requires s <= t && i < |s|
    ensures Chunk(s, i) != Verdict(0) ==> Chunk(t, i) == Chunk(s, i)
  {
    hide SeekLine, Trailers, NumVal;
    AtoiStable(16, s, t, i);
    var n := RunEnd(16, s, i) - i;
    NothingAtEnd(s);
    TrailersStable(s, t, i + n);
    SeekLineStable(s, t, i + n);
  }

  lemma NothingAtEnd(s: seq<byte>)
    ensures Trailers(s, |s|) == 0 && SeekLine(s, |s|) == None
  {
  }

  /** Every non-zero verdict of the chunk walk, acceptance or error, is final. */
  lemma {:induction false} ChunksStable(s: seq<byte>, t: seq<byte>, i: nat)
    requires s <= t
    ensures Chunks(s, i) != 0 ==> Chunks(t, i) == Chunks(s, i)
    decreases |s| - i
  {
    if i < |s| {
      ChunkStable(s, t, i);
      if Chunk(s, i).Next? { ChunksStable(s, t, Chunk(s, i).i); }
    }
  }

  lemma {:induction false} TokenEndStable(s: seq<byte>, t: seq<byte>, i: nat, start: nat, chunked: bool)
    requires s <= t
    ensures TokenEnd(s, i, start, chunked).Some? ==>
              TokenEnd(t, i, start, chunked) == TokenEnd(s, i, start, chunked)
    decreases |s| - i
  {
    if i + 2 < |s| {
      var c := chunked || (i == start + 7 && MatchesAt(s, start, CHUNKED));
      assert c == (chunked || (i == start + 7 && MatchesAt(t, start, CHUNKED)));
      TokenEndStable(s, t, i + 1, start, c);
    }
  }

  lemma BodyStable(s: seq<byte>, t: seq<byte>, i: nat, contentLen: int, chunked: bool, headOnly: bool)
    requires s <= t && i <= |s| && -1 <= contentLen
    ensures Body(s, i, contentLen, chunked, headOnly) != 0 ==>
              Body(t, i, contentLen, chunked, headOnly) == Body(s, i, contentLen, chunked, headOnly)
  {
    ChunksStable(s, t, i);
  }

  lemma TransferEncodingHasNoEol(s: seq<byte>, j: nat, k: nat)
    requires MatchesAt(s, j, TRANSFER_ENCODING) && j <= k < j + 18
    ensures !IsEol(s[k])
  {
    assert Lower(s[j + (k - j)]) == Lower(TRANSFER_ENCODING[k - j]);
  }

  lemma ContentLengthHasNoEol(s: seq<byte>, j: nat, k: nat)
    requires MatchesAt(s, j, CONTENT_LENGTH) && j <= k < j + 15
    ensures !IsEol(s[k])
  {
    assert Lower(s[j + (k - j)]) == Lower(CONTENT_LENGTH[k - j]);
  }

  /** The header line at `j` is one of those the look-ahead guards hide in `s` and show in `t`. */
  ghost predicate Hidden(s: seq<byte>, t: seq<byte>, j: nat) {
    || (|s| <= j + 19 < |t| && MatchesAt(t, j, TRANSFER_ENCODING))
    || (|s| <= j + 16 < |t| && MatchesAt(t, j, CONTENT_LENGTH))
  }

  lemma EncodingLineStable(s: seq<byte>, t: seq<byte>, j: nat, contentLen: int, chunked: bool)
    requires s <= t && j + 18 <= |s|
    ensures EncodingLine(s, j, contentLen, chunked) != Done(0) ==>
              EncodingLine(t, j, contentLen, chunked) == EncodingLine(s, j, contentLen, chunked)
  {
    SkipSpacesStable(s, t, j + 18);
    var v := SkipSpaces(s, j + 18);
    TokenEndStable(s, t, v, v, chunked);
  }

  lemma LengthLineStable(s: seq<byte>, t: seq<byte>, j: nat, chunked: bool)
    requires s <= t && j + 15 <= |s|
    ensures
      var a, b := LengthLine(s, j, chunked), LengthLine(t, j, chunked);
      a == b || a == Done(0) || (a.Continue? && a.i == |s|)
  {
    SkipSpacesStable(s, t, j + 15);
    AtoiStable(10, s, t, SkipSpaces(s, j + 15));
  }

  /** How one header line fares when the buffer grows. */
  lemma HeaderLineStable(s: seq<byte>, t: seq<byte>, j: nat, contentLen: int, chunked: bool)
    requires s <= t && j <= |s|
    ensures
      var a, b := HeaderLine(s, j, contentLen, chunked), HeaderLine(t, j, contentLen, chunked);
      || a == b
      || a == Done(0)
      || (a.Continue? && a.i == |s|)
      || (a == Continue(j + 1, contentLen, chunked) && Hidden(s, t, j))
  {
    if j + 19 < |s| {
      assert MatchesAt(s, j, TRANSFER_ENCODING) == MatchesAt(t, j, TRANSFER_ENCODING);
      EncodingLineStable(s, t, j, contentLen, chunked);
    }
    if j + 16 < |s| {
      assert MatchesAt(s, j, CONTENT_LENGTH) == MatchesAt(t, j, CONTENT_LENGTH);
      assert MatchesAt(t, j, CONTENT_LENGTH) ==> Lower(t[j + 0]) == Lower(CONTENT_LENGTH[0]);
      assert MatchesAt(t, j, TRANSFER_ENCODING) ==> Lower(t[j + 0]) == Lower(TRANSFER_ENCODING[0]);
      LengthLineStable(s, t, j, chunked);
    }
  }

  /** A buffer whose rest holds no line end is incomplete, or already past the header limit. */
  lemma {:induction false} TailVerdict(s: seq<byte>, i: nat, contentLen: int, chunked: bool, headOnly: bool)
    requires -1 <= contentLen
    requires forall k :: i <= k < |s| - 1 ==> !IsEol(s[k])
    ensures
      var r := Headers(s, i, contentLen, chunked, headOnly);
      r == 0 || (r == -1 && |s| - 2 > MAX_HEADER)
    decreases |s| - i
  {
    if i + 2 <= |s| && i <= MAX_HEADER {
      TailVerdict(s, i + 1, contentLen, chunked, headOnly);
    }
  }

  /** The verdict that follows one turn of the header loop. */
  ghost function After(s: seq<byte>, turn: HeaderTurn, headOnly: bool): int
    requires turn.Continue? ==> -1 <= turn.contentLen
  {
    if turn.Done? then turn.r else Headers(s, turn.i, turn.contentLen, turn.chunked, headOnly)
  }

  /** A hidden header line cannot turn into an acceptance in `s`, and if it ran into the header
      limit there it cannot be accepted in `t` either. */
  lemma HiddenVerdict(s: seq<byte>, t: seq<byte>, j: nat, contentLen: int, chunked: bool, headOnly: bool)
    requires s <= t && j <= |s| && -1 <= contentLen
    requires Hidden(s, t, j)
    ensures
      var r := Headers(s, j + 1, contentLen, chunked, headOnly);
      && r <= 0
      && (r == -1 ==> |s| - 2 > MAX_HEADER && After(t, HeaderLine(t, j, contentLen, chunked), headOnly) <= 0)
  {
    forall k | j + 1 <= k < |s| - 1
      ensures !IsEol(s[k])
    {
      if |s| <= j + 19 < |t| && MatchesAt(t, j, TRANSFER_ENCODING) {
        TransferEncodingHasNoEol(t, j, k);
      } else {
        ContentLengthHasNoEol(t, j, k);
      }
      assert s[k] == t[k];
    }
    TailVerdict(s, j + 1, contentLen, chunked, headOnly);
  }

  /** A header line inside the buffer hands over to the turn that HeaderLine describes. */
  lemma HeadersAtLine(s: seq<byte>, i: nat, contentLen: int, chunked: bool, headOnly: bool)
    requires -1 <= contentLen && i + 2 <= |s| && i <= MAX_HEADER
    requires SkipCrlf(s, i) != i && SkipCrlf(s, SkipCrlf(s, i)) == SkipCrlf(s, i)
    ensures Headers(s, i, contentLen, chunked, headOnly)
         == After(s, HeaderLine(s, SkipCrlf(s, i), contentLen, chunked), headOnly)
  {
  }

  /** A blank line of which only a CR, or nothing, has arrived leaves the verdict open. */
  lemma CutOffBlankLine(s: seq<byte>, t: seq<byte>, i: nat, contentLen: int, chunked: bool, headOnly: bool)
    requires s <= t && -1 <= contentLen && i + 2 <= |s| && i <= MAX_HEADER
    requires SkipCrlf(s, i) != i && SkipCrlf(s, SkipCrlf(s, i)) == SkipCrlf(s, i)
    requires SkipCrlf(t, SkipCrlf(s, i)) != SkipCrlf(s, i)
    ensures Headers(s, i, contentLen, chunked, headOnly) == 0
  {
    HeadersAtLine(s, i, contentLen, chunked, headOnly);
  }

  /** Acceptance is final, and a rejected header section is never accepted later. */
  lemma {:induction false} HeadersStable(s: seq<byte>, t: seq<byte>, i: nat, contentLen: int, chunked: bool,
      headOnly: bool)
    requires s <= t && -1 <= contentLen
    ensures Consistent(|s|, Headers(s, i, contentLen, chunked, headOnly), Headers(t, i, contentLen, chunked, headOnly))
    decreases |s| - i
  {
    hide HeaderLine, Body, After;
    if i + 2 <= |s| && i <= MAX_HEADER {
      var j := SkipCrlf(s, i);
      assert SkipCrlf(t, i) == j;
      if j == i {
        HeadersStable(s, t, i + 1, contentLen, chunked, headOnly);
      } else if SkipCrlf(s, j) != j {
        BodyStable(s, t, SkipCrlf(s, j), contentLen, chunked, headOnly);
      } else if SkipCrlf(t, j) == j {
        HeadersAtLine(s, i, contentLen, chunked, headOnly);
        HeadersAtLine(t, i, contentLen, chunked, headOnly);
        HeadersLineStable(s, t, i, contentLen, chunked, headOnly);
      } else {
        CutOffBlankLine(s, t, i, contentLen, chunked, headOnly);
      }
    }
  }

  lemma HeadersAtEnd(s: seq<byte>, contentLen: int, chunked: bool, headOnly: bool)
    requires -1 <= contentLen
    ensures Headers(s, |s|, contentLen, chunked, headOnly) == 0
  {
  }

  lemma {:induction false} HeadersLineStable(s: seq<byte>, t: seq<byte>, i: nat, contentLen: int,
      chunked: bool, headOnly: bool)
    requires s <= t && -1 <= contentLen && i + 2 <= |s| && SkipCrlf(s, i) != i
    ensures
      var j := SkipCrlf(s, i);
      Consistent(|s|, After(s, HeaderLine(s, j, contentLen, chunked), headOnly),
                 After(t, HeaderLine(t, j, contentLen, chunked), headOnly))
    decreases |s| - i, 0
  {
    var j := SkipCrlf(s, i);
    hide HeaderLine, Hidden, Headers;
    HeaderLineStable(s, t, j, contentLen, chunked);
    var line := HeaderLine(s, j, contentLen, chunked);
    if line == Continue(j + 1, contentLen, chunked) && Hidden(s, t, j) {
      HiddenVerdict(s, t, j, contentLen, chunked, headOnly);
    } else if line.Continue? && line.i == |s| {
      HeadersAtEnd(s, line.contentLen, line.chunked, headOnly);
    } else if line.Continue? {
      HeadersStable(s, t, line.i, line.contentLen, line.chunked, headOnly);
    }
  }

  lemma LineEndUnique(s: seq<byte>, i: nat, j: nat)
    requires i <= j < |s|
    requires forall k :: i <= k < j ==> !IsEol(s[k])
    requires IsEol(s[j])
    ensures LineEnd(s, i) == j
  {
  }

  lemma {:induction false} FirstSpaceStable(s: seq<byte>, t: seq<byte>, j: nat, end: nat)
    requires s <= t && end <= |s|
    ensures FirstSpace(s, j, end) == FirstSpace(t, j, end)
    decreases end - j
  {
    if j < end && s[j] != SPACE { FirstSpaceStable(s, t, j + 1, end); }
  }

  /** A line end inside the compared octets makes the comparison fail in both buffers. */
  lemma OccursStable(s: seq<byte>, t: seq<byte>, j: nat, end: nat, text: seq<byte>)
    requires s <= t && j <= end < |s| && IsEol(s[end])
    requires forall k :: 0 <= k < |text| ==> !IsEol(text[k])
    ensures OccursAt(s, j, text) == OccursAt(t, j, text)
  {
    if end < j + |text| {
      var k := end - j;
      assert t[j + k] != text[k];
    }
  }

  lemma ClassifyStable(s: seq<byte>, t: seq<byte>, end: nat, headOnly: bool)
    requires s <= t && end < |s| && end == LineEnd(s, 0)
    ensures Classify(s, end, headOnly) == Classify(t, end, headOnly)
  {
    hide OccursAt, FirstSpace;
    OccursStable(s, t, 0, end, HTTP_SLASH);
    FirstSpaceStable(s, t, 5, end);
    var j := FirstSpace(s, 5, end);
    if OccursAt(s, 0, HTTP_SLASH) && j < end {
      OccursStable(s, t, j + 1, end, NO_CONTENT);
      OccursStable(s, t, j + 1, end, NOT_MODIFIED);
    }
  }

  /** cs_complete_http over a growing buffer: acceptance is final, rejection is never revoked into
      an acceptance. */
  lemma CompleteHttpStable(s: seq<byte>, t: seq<byte>, headOnly: bool)
    requires s <= t
    ensures Consistent(|s|, CompleteHttp(s, headOnly), CompleteHttp(t, headOnly))
  {
    var end := LineEnd(s, 0);
    if end < |s| {
      LineEndUnique(t, 0, end);
      ClassifyStable(s, t, end, headOnly);
      var start := Classify(s, end, headOnly);
      HeadersStable(s, t, 2, start.contentLen, false, start.headOnly);
    }
  }

  // ---- scanning over text without line ends

  /** Octets without a line end are stepped over one by one. */
  lemma {:induction false} WalkTo(s: seq<byte>, i: nat, k: nat, contentLen: int, chunked: bool, headOnly: bool)
    requires -1 <= contentLen
    requires i <= k <= MAX_HEADER + 1 && k + 1 <= |s|
    requires forall m :: i <= m < k ==> !IsEol(s[m])
    ensures Headers(s, i, contentLen, chunked, headOnly) == Headers(s, k, contentLen, chunked, headOnly)
    decreases k - i
  {
    if i < k { WalkTo(s, i + 1, k, contentLen, chunked, headOnly); }
  }

  /** Beyond the header limit a rejection is not final: with a Content-Length line cut off right
      after its colon the short buffer is rejected for its size, and two octets later the verdict is
      back to incomplete. */
  lemma RejectionNotFinal() returns (s: seq<byte>, t: seq<byte>)
    ensures s <= t && |s| == MAX_HEADER + 13
    ensures CompleteHttp(s, false) == -1 && CompleteHttp(t, false) == 0
  {
    hide CompleteHttp, After, HeaderLine;
    var line: seq<byte> := seq(8189, _ => 65);
    s := line + [LF] + CONTENT_LENGTH;
    t := s + Ascii(" 7");
    LongFirstLine(s);
    LongFirstLine(t);
    forall k | 0 <= k < 15 ensures s[8190 + k] == t[8190 + k] == CONTENT_LENGTH[k] {}
    CutAfterColon(s);
    CutAfterDigit(t);
  }

  /** 8189 letters, a line end, and a Content-Length line of which `s` has the name only. */
  ghost predicate LongStart(s: seq<byte>) {
    && |s| >= 8205
    && (forall k :: 0 <= k < 8189 ==> s[k] == 65)
    && s[8189] == LF
    && MatchesAt(s, 8190, CONTENT_LENGTH)
  }

  lemma LongFirstLine(s: seq<byte>)
    requires LongStart(s)
    ensures CompleteHttp(s, false) == After(s, HeaderLine(s, 8190, 0, false), false)
  {
    LineEndUnique(s, 0, 8189);
    assert Classify(s, 8189, false) == Start(false, 0);
    WalkTo(s, 2, 8189, 0, false, false);
    ContentLengthHasNoEol(s, 8190, 8190);
    HeadersAtLine(s, 8189, 0, false, false);
  }

  lemma CutAfterColon(s: seq<byte>)
    requires LongStart(s) && |s| == 8205
    ensures After(s, HeaderLine(s, 8190, 0, false), false) == -1
  {
    ContentLengthHasNoEol(s, 8190, 8191);
    ContentLengthHasNoEol(s, 8190, 8192);
    WalkTo(s, 8191, 8193, 0, false, false);
  }

  lemma CutAfterDigit(s: seq<byte>)
    requires LongStart(s) && |s| == 8207 && s[8205] == SPACE && s[8206] == '7' as int
    ensures After(s, HeaderLine(s, 8190, 0, false), false) == 0
  {
    assert MatchesAt(s, 8190, CONTENT_LENGTH);
    assert Lower(s[8190 + 0]) == Lower(CONTENT_LENGTH[0]);
    assert SkipSpaces(s, 8205) == 8206;
    RunEndUnique(10, s, 8206, 8207);
    assert NumVal(10, s, 8206, 8207) == 7;
  }

  // ---- the C routines

  /** The scan for the end of a chunk size line; 0 if it has not arrived. */
  method SeekLineLoop(buf: seq<byte>, start: nat) returns (i: nat)
    ensures SeekLine(buf, start) == if i == 0 then None else Some(i)
  {
    i := start;
    while true
      invariant SeekLine(buf, i) == SeekLine(buf, start)
      decreases |buf| - i
    {
      if i >= |buf| - 1 {
        return 0;
      }
      if SkipCrlf(buf, i) != i {
        return SkipCrlf(buf, i);
      }
      i := i + 1;
    }
  }

  /** The scan of the trailer section. */
  method TrailerLoop(buf: seq<byte>, start: nat) returns (r: int)
    ensures r == Trailers(buf, start)
  {
    var i := start;
    while i < |buf|
      invariant Trailers(buf, i) == Trailers(buf, start)
      decreases |buf| - i
    {
      var j := SkipCrlf(buf, i);
      if j != i {
        i := j;
        j := SkipCrlf(buf, i);
        if j != i {
          return j;
        }
      } else {
        i := i + 1;
      }
    }
    return 0;
  }

  /** cs_read_chunks. */
  method CsReadChunks(buf: seq<byte>, start: nat) returns (r: int)
    ensures r == Chunks(buf, start)
  {
    hide SeekLine, Trailers, SkipCrlf, Atoi;
    var i := start;
    while true
      invariant Chunks(buf, i) == Chunks(buf, start)
      decreases |buf| - i
    {
      if i >= |buf| {
        return 0;
      }
      var ret, chunkLen := YazAtoi(16, buf, i);
      if ret <= 0 {
        return -1;
      }
      if chunkLen == 0 {
        r := TrailerLoop(buf, i + ret);
        return;
      }
      var data := SeekLineLoop(buf, i + ret);
      if data == 0 {
        return 0;
      }
      if chunkLen > INT_MAX - data {
        return -1;
      }
      if data + chunkLen >= |buf| - 2 {
        return 0;
      }
      if SkipCrlf(buf, data + chunkLen) == data + chunkLen {
        return 0;
      }
      i := SkipCrlf(buf, data + chunkLen);
    }
  }

  /** What cs_complete_http does once the header section has ended. */
  method CsBody(buf: seq<byte>, i: nat, contentLen: int, chunked: bool, head: bool) returns (r: int)
    requires -1 <= contentLen && i <= |buf|
    ensures r == Body(buf, i, contentLen, chunked, head)
  {
    if head {
      return i;
    }
    if chunked {
      r := CsReadChunks(buf, i);
      return;
    }
    if contentLen == -1 {
      return 0;
    }
    if contentLen > INT_MAX - i {
      return -1;
    }
    if |buf| >= i + contentLen {
      return i + contentLen;
    }
    return 0;
  }

  /** The Content-Length branch of the header loop; a verdict of 1 means that the loop goes on. */
  method LengthField(buf: seq<byte>, j: nat, ghost chunked: bool) returns (verdict: int, i: nat, contentLen: int)
    requires j + 15 <= |buf|
    ensures verdict == 0 || verdict == -1 || verdict == 1
    ensures LengthLine(buf, j, chunked) == if verdict <= 0 then Done(verdict) else Continue(i, contentLen, chunked)
  {
    i, contentLen := j + 15, 0;
    while i < |buf| && buf[i] == SPACE
      invariant i <= |buf| && SkipSpaces(buf, i) == SkipSpaces(buf, j + 15)
      decreases |buf| - i
    {
      i := i + 1;
    }
    if i == |buf| {
      return 0, i, contentLen;
    }
    var noRead, len := YazAtoi(10, buf, i);
    if noRead <= 0 {
      return -1, i, contentLen;
    }
    return 1, i + noRead, len;
  }

  /** cs_complete_http. */
  method CsCompleteHttp(buf: seq<byte>, headOnly: bool) returns (r: int)
    ensures r == CompleteHttp(buf, headOnly)
  {
    var len := |buf|;
    var i: nat := 0;
    while true
      invariant i <= len && LineEnd(buf, i) == LineEnd(buf, 0)
      decreases len - i
    {
      if i == len {
        return 0;
      } else if buf[i] == LF || buf[i] == CR {
        break;
      }
      i := i + 1;
    }
    var head, contentLen := ClassifyLoop(buf, i, headOnly);
    r := HeaderLoop(buf, contentLen, head);
  }

  /** The header loop of cs_complete_http. */
  method HeaderLoop(buf: seq<byte>, contentLen0: int, head: bool) returns (r: int)
    requires -1 <= contentLen0
    ensures r == Headers(buf, 2, contentLen0, false, head)
  {
    var contentLen, chunked := contentLen0, false;
    var i: nat := 2;
    while i <= |buf| - 2
      invariant -1 <= contentLen
      invariant Headers(buf, i, contentLen, chunked, head) == Headers(buf, 2, contentLen0, false, head)
      decreases |buf| - i
    {
      if i > MAX_HEADER {
        return -1;
      }
      var j := SkipCrlf(buf, i);
      if j == i {
        i := i + 1;
        continue;
      }
      if SkipCrlf(buf, j) != j {
        r := CsBody(buf, SkipCrlf(buf, j), contentLen, chunked, head);
        return;
      }
      HeadersAtLine(buf, i, contentLen, chunked, head);
      var verdict;
      verdict, i, contentLen, chunked := HeaderField(buf, j, contentLen, chunked);
      if verdict <= 0 {
        return verdict;
      }
    }
    return 0;
  }

  /** The header line cases of the loop; a verdict of 1 means that the loop goes on. */
  method HeaderField(buf: seq<byte>, j: nat, contentLen: int, chunked: bool)
    returns (verdict: int, i: nat, contentLen': int, chunked': bool)
    ensures verdict == 0 || verdict == -1 || verdict == 1
    ensures HeaderLine(buf, j, contentLen, chunked)
         == if verdict <= 0 then Done(verdict) else Continue(i, contentLen', chunked')
  {
    verdict, i, contentLen', chunked' := 1, j + 1, contentLen, chunked;
    if j < |buf| - 19 && MatchesAt(buf, j, TRANSFER_ENCODING) {
      var ok;
      ok, i, chunked' := EncodingLoop(buf, j, contentLen, chunked);
      verdict := if ok then 1 else 0;
    } else if j < |buf| - 16 && MatchesAt(buf, j, CONTENT_LENGTH) {
      verdict, i, contentLen' := LengthField(buf, j, chunked);
    }
  }

  /** The scan of the status line for its code. */
  method ClassifyLoop(buf: seq<byte>, end: nat, headOnly: bool) returns (head: bool, contentLen: int)
    requires end < |buf|
    ensures Start(head, contentLen) == Classify(buf, end, headOnly)
  {
    head, contentLen := headOnly, 0;
    if !headOnly && OccursAt(buf, 0, HTTP_SLASH) {
      var j: nat := 5;
      while j < end
        invariant FirstSpace(buf, j, end) == FirstSpace(buf, 5, end)
        decreases end - j
      {
        if buf[j] == SPACE {
          j := j + 1;
          if buf[j] == '1' as int {
            head := true;
          } else if OccursAt(buf, j, NO_CONTENT) {
            head := true;
          } else if OccursAt(buf, j, NOT_MODIFIED) {
            head := true;
          } else {
            contentLen := -1;
          }
          return;
        }
        j := j + 1;
      }
    }
  }

  /** The Transfer-Encoding branch of the header loop. */
  method EncodingLoop(buf: seq<byte>, j: nat, ghost contentLen: int, chunked: bool)
    returns (ok: bool, i: nat, chunked': bool)
    requires j + 18 <= |buf|
    ensures EncodingLine(buf, j, contentLen, chunked) == if ok then Continue(i, contentLen, chunked') else Done(0)
  {
    i, chunked' := j + 18, chunked;
    while i < |buf| && buf[i] == SPACE
      invariant i <= |buf| && SkipSpaces(buf, i) == SkipSpaces(buf, j + 18)
      decreases |buf| - i
    {
      i := i + 1;
    }
    var tokenStart := i;
    while true
      invariant tokenStart <= i
      invariant TokenEnd(buf, i, tokenStart, chunked') == TokenEnd(buf, tokenStart, tokenStart, chunked)
      decreases |buf| - i
    {
      if i >= |buf| - 2 {
        return false, i, chunked';
      }
      if i == tokenStart + 7 && MatchesAt(buf, tokenStart, CHUNKED) {
        chunked' := true;
      }
      if SkipCrlf(buf, i) != i {
        return true, i, chunked';
      }
      i := i + 1;
    }
  }
}
