/** HTTP responses, src/http.c: the encoder, the decoder, and both against the framer. */
module HttpCodec {
  import opened Bytes
  import opened Pieces
  import opened Atoin
  import opened HttpFramer

  const COLON: byte := 58
  const CRLF: seq<byte> := [CR, LF]

  lemma CrlfAt(s: seq<byte>, i: nat)
    requires OccursAt(s, i, CRLF)
    ensures i + 2 <= |s| && s[i] == CR && s[i + 1] == LF
  {
    assert s[i + 0] == CRLF[0] && s[i + 1] == CRLF[1];
  }

  datatype Header = Header(name: seq<byte>, value: seq<byte>)
  datatype Response = Response(version: seq<byte>, code: nat, headers: seq<Header>, content: seq<byte>)

  // ---- encoder

  /** Headers that the encoder replaces or drops. */
  predicate Dropped(h: Header) {
    EqualsIgnoreCase(h.name, CONTENT_LENGTH_NAME) || EqualsIgnoreCase(h.name, TRANSFER_ENCODING_NAME)
  }

  function Kept(hs: seq<Header>): seq<Header> {
    if hs == [] then [] else (if Dropped(hs[0]) then [] else [hs[0]]) + Kept(hs[1..])
  }

  function Line(h: Header): seq<byte> {
    h.name + [COLON, SPACE] + h.value + CRLF
  }

  function Lines(hs: seq<Header>): seq<byte> {
    if hs == [] then [] else Line(hs[0]) + Lines(hs[1..])
  }

  /** The status line before it goes through the 80 octet buffer. */
  function StatusText(r: Response, reason: seq<byte>): seq<byte> {
    HTTP_SLASH + r.version + [SPACE] + Decimal(r.code) + [SPACE] + reason + CRLF
  }

  /** yaz_snprintf keeps 79 octets. */
  function StatusLine(r: Response, reason: seq<byte>): seq<byte> {
    var text := StatusText(r, reason);
    if |text| <= 79 then text else text[..79]
  }

  function LengthHeader(r: Response): Header {
    Header(CONTENT_LENGTH_NAME, Decimal(|r.content|))
  }

  /** Everything up to and including the blank line. */
  function Head(r: Response, reason: seq<byte>): seq<byte> {
    StatusLine(r, reason) + Line(LengthHeader(r)) + Lines(Kept(r.headers)) + CRLF
  }

  /** The octets that yaz_encode_http_response writes. */
  function Encode(r: Response, reason: seq<byte>): seq<byte> {
    Head(r, reason) + r.content
  }

  /** yaz_encode_http_response: the header loop skips what the computed length replaces. */
  method YazEncodeHttpResponse(r: Response, reason: seq<byte>) returns (out: seq<byte>)
    ensures out == Encode(r, reason)
  {
    hide StatusLine, Line, Lines, Kept, Dropped;
    out := StatusLine(r, reason);
    out := out + Line(LengthHeader(r));
    var i := 0;
    ghost var start := out;
    while i < |r.headers|
      invariant 0 <= i <= |r.headers|
      invariant out + Lines(Kept(r.headers[i..])) == start + Lines(Kept(r.headers))
    {
      var h := r.headers[i];
      LinesStep(r.headers[i..]);
      assert r.headers[i..][1..] == r.headers[i + 1..];
      if !Dropped(h) {
        Regroup(out, Line(h), Lines(Kept(r.headers[i + 1..])));
        out := out + Line(h);
      }
      i := i + 1;
    }
    LinesStep([]);
    assert r.headers[i..] == [] && out + [] == out;
    out := out + CRLF;
    out := out + r.content;
  }

  lemma LinesStep(hs: seq<Header>)
    ensures hs == [] ==> Lines(Kept(hs)) == []
    ensures hs != [] && Dropped(hs[0]) ==> Lines(Kept(hs)) == Lines(Kept(hs[1..]))
    ensures hs != [] && !Dropped(hs[0]) ==> Lines(Kept(hs)) == Line(hs[0]) + Lines(Kept(hs[1..]))
  {
    hide Line, Dropped;
    if hs != [] {
      var rest := Kept(hs[1..]);
      assert ([hs[0]] + rest)[1..] == rest && [] + rest == rest;
    }
  }

  // ---- decoder

  predicate IsSpaceOrEnd(b: byte) { b == SPACE || b == CR || b == LF || b == 0 }
  predicate IsLineEnd(b: byte) { b == CR || b == LF || b == 0 }
  predicate IsColon(b: byte) { b == COLON }
  predicate IsNotSpace(b: byte) { b != SPACE }
  predicate IsNotDigit(b: byte) { b < 48 || b > 57 }
  predicate IsNotAlnum(b: byte) { !IsDigit(36, b) }

  /** Result of reading the status line: the version, the code, and the position of its LF. */
  datatype First = First(version: seq<byte>, code: nat, end: nat)

  /** yaz_decode_http_response_first. */
  function DecodeFirst(s: seq<byte>): (r: Option<First>)
    ensures r.Some? ==> 5 < r.value.end < |s| && s[r.value.end] == LF
  {
    var sz := |s|;
    if sz < 10 || !OccursAt(s, 0, HTTP_SLASH) then None
    else
      var v := Find(s, 5, sz - 1, IsSpaceOrEnd);
      if v >= sz - 1 || s[v] != SPACE then None
      else
        var c := Find(s, v + 1, sz - 1, IsNotDigit);
        if c >= sz - 1 || c > v + 4 || s[c] != SPACE then None
        else
          match LineFeed(s, c + 1)
          case None => None
          case Some(e) => FirstOf(s, v, c, e)
  }

  /** The LF of the line that starts at `i`, if the first line end has one. */
  function LineFeed(s: seq<byte>, i: nat): (r: Option<nat>)
    ensures r.Some? ==> i <= r.value < |s| && s[r.value] == LF
  {
    var m := Find(s, i, |s|, IsLineEnd);
    if m >= |s| then None
    else
      var e := if m < |s| - 1 && s[m] == CR then m + 1 else m;
      if s[e] != LF then None else Some(e)
  }

  function FirstOf(s: seq<byte>, v: nat, c: nat, e: nat): Option<First>
    requires 5 <= v < c <= e < |s|
  {
    Some(First(s[5..v], NumVal(10, s, v + 1, c), e))
  }

  /** One header line that starts at `i`: the header and the position of the octet that ends it. */
  function DecodeHeader(s: seq<byte>, i: nat): (r: Option<(Header, nat)>)
    requires i < |s|
    ensures r.Some? ==> i < r.value.1 <= |s|
  {
    var size := |s|;
    var c := Find(s, i, size, IsColon);
    if c == size then None
    else
      var v := Find(s, c + 1, size - 1, IsNotSpace);
      var e := Find(s, v, size - 1, IsLineEnd);
      var e' := if e < size - 1 && s[e] == CR then e + 1 else e;
      Some((Header(s[i..c], s[v..e]), e'))
  }

  /** The header loop of decode_headers_content, from the LF that ends the previous line: the headers
      and the position where the loop stops. */
  function DecodeHeaders(s: seq<byte>, i: nat): (r: Option<(seq<Header>, nat)>)
    requires i <= |s|
    ensures r.Some? ==> i <= r.value.1 <= |s|
    decreases |s| - i
  {
    var size := |s|;
    if i >= size - 1 || s[i] != LF then Some(([], i))
    else if s[i + 1] == CR && i + 1 < size - 1 && s[i + 2] == LF then Some(([], i + 2))
    else if s[i + 1] == LF then Some(([], i + 1))
    else
      match DecodeHeader(s, i + 1)
      case None => None
      case Some((h, e)) =>
        match DecodeHeaders(s, e)
        case None => None
        case Some((hs, stop)) => Some(([h] + hs, stop))
  }

  predicate IsChunked(hs: seq<Header>) {
    exists k :: 0 <= k < |hs| && EqualsIgnoreCase(hs[k].name, TRANSFER_ENCODING_NAME)
                && EqualsIgnoreCase(hs[k].value, CHUNKED)
  }

  /** The signed 32 bit value that a C int holds after `chunk_len * 16 + digit`. */
  function Wrap(v: int): (r: int)
    ensures -0x8000_0000 <= r <= INT_MAX
    ensures -0x8000_0000 <= v <= INT_MAX ==> r == v
  {
    var u := v % 0x1_0000_0000;
    if u <= INT_MAX then u else u - 0x1_0000_0000
  }

  function ChunkSize(s: seq<byte>, i: nat, end: nat, size: int): int
    requires i <= end <= |s|
    decreases end - i
  {
    if i == end then size else ChunkSize(s, i + 1, end, Wrap(size * 16 + DigitValue(s[i])))
  }

  /** The chunk extension loop: the position of the octet pair that stops it. */
  function ExtensionEnd(s: seq<byte>, i: nat): (r: Option<nat>)
    ensures r.Some? ==> i <= r.value && r.value + 2 <= |s|
    decreases |s| - i
  {
    if i + 1 >= |s| then None
    else if s[i] == CR || s[i + 1] == LF then Some(i)
    else if i >= |s| - 2 then None
    else ExtensionEnd(s, i + 1)
  }

  /** One turn of the decoder: an error, the last chunk, or a chunk that others follow. */
  datatype DecoderTurn = Fails | Last | More(data: nat, size: nat)

  function OneTurn(s: seq<byte>, i: nat, total: nat): (t: DecoderTurn)
    ensures t.More? ==> i < t.data + t.size <= |s|
  {
    if i + 2 > |s| then Fails
    else
      var d := Find(s, i, |s| - 2, IsNotAlnum);
      var size := ChunkSize(s, i, d, 0);
      match ExtensionEnd(s, d)
      case None => Fails
      case Some(e) =>
        if size == 0 then Last
        else if size < 0 || total + size > |s| || e + 2 + size > |s| then Fails
        else More(e + 2, size)
  }

  /** The chunk loop of decode_headers_content; a copy that would leave the buffer is an error. */
  function DecodeChunks(s: seq<byte>, i: nat, content: seq<byte>): Option<seq<byte>>
    decreases |s| - i
  {
    match OneTurn(s, i, |content|)
    case Fails => None
    case Last => Some(content)
    case More(data, size) => DecodeChunks(s, data + size + 2, content + s[data..data + size])
  }

  lemma DecodeStep(s: seq<byte>, i: nat, content: seq<byte>)
    ensures var t := OneTurn(s, i, |content|);
            && (t.Fails? ==> DecodeChunks(s, i, content) == None)
            && (t.Last? ==> DecodeChunks(s, i, content) == Some(content))
            && (t.More? ==> DecodeChunks(s, i, content) ==
                            DecodeChunks(s, t.data + t.size + 2, content + s[t.data..t.data + t.size]))
  {
    hide OneTurn;
  }

  /** decode_headers_content from the LF at `off`. */
  function DecodeRest(s: seq<byte>, off: nat): Option<(seq<Header>, seq<byte>)>
    requires off <= |s|
  {
    match DecodeHeaders(s, off)
    case None => None
    case Some((hs, i)) =>
      if i >= |s| || s[i] != LF then None
      else if IsChunked(hs) then
        match DecodeChunks(s, i + 1, [])
        case None => None
        case Some(content) => Some((hs, content))
      else Some((hs, s[i + 1..]))
  }

  /** yaz_decode_http_response. */
  function Decode(s: seq<byte>): Option<Response> {
    match DecodeFirst(s)
    case None => None
    case Some(first) =>
      match DecodeRest(s, first.end)
      case None => None
      case Some((hs, content)) => Some(Response(first.version, first.code, hs, content))
  }

  // ---- the C routines of the decoder

  /** yaz_decode_http_response_first: the position of the LF that ends the status line, or 0. */
  method YazDecodeHttpResponseFirst(s: seq<byte>) returns (end: nat, version: seq<byte>, code: nat)
    ensures DecodeFirst(s) == if end == 0 then None else Some(First(version, code, end))
  {
    hide Find, OccursAt, NumVal, LineFeed;
    var sz := |s|;
    end, version, code := 0, [], 0;
    if sz < 10 || !OccursAt(s, 0, HTTP_SLASH) {
      return;
    }
    var i := FindLoop(s, 5, sz - 1, IsSpaceOrEnd);
    if i >= sz - 1 || s[i] != SPACE {
      return;
    }
    version := s[5..i];
    i, code := CodeLoop(s, i + 1);
    if i == 0 || s[i] != SPACE {
      return;
    }
    end := EndOfLine(s, i + 1);
  }

  /** The rest of the status line: the position of its LF, or 0. */
  method EndOfLine(s: seq<byte>, start: nat) returns (end: nat)
    requires start > 0
    ensures LineFeed(s, start) == if end == 0 then None else Some(end)
  {
    hide Find;
    var i := FindLoop(s, start, |s|, IsLineEnd);
    if i >= |s| {
      return 0;
    }
    if i < |s| - 1 && s[i] == CR {
      i := i + 1;
    }
    return if s[i] == LF then i else 0;
  }

  /** The loop over the status code: where it stops, or 0 if it reaches the end or a fourth digit. */
  method CodeLoop(s: seq<byte>, j: nat) returns (i: nat, code: nat)
    requires 0 < j <= |s| - 1
    ensures
      var c := Find(s, j, |s| - 1, IsNotDigit);
      if c >= |s| - 1 || c > j + 3 then i == 0 else i == c && code == NumVal(10, s, j, c)
  {
    i, code := j, 0;
    while i < |s| - 1 && i <= j + 3 && 48 <= s[i] <= 57
      invariant j <= i <= |s| - 1
      invariant forall k :: j <= k < i ==> 48 <= s[k] <= 57
      invariant code == NumVal(10, s, j, i)
    {
      code := code * 10 + (s[i] - 48);
      i := i + 1;
    }
    CodeScan(s, j, i);
    if i >= |s| - 1 || i > j + 3 {
      i := 0;
    }
  }

  /** Where the loop over the status code stops, compared with an unlimited scan for its digits. */
  lemma CodeScan(s: seq<byte>, j: nat, i: nat)
    requires j <= i <= |s| - 1 && forall k :: j <= k < i ==> 48 <= s[k] <= 57
    ensures i <= Find(s, j, |s| - 1, IsNotDigit)
    ensures i == |s| - 1 || IsNotDigit(s[i]) ==> Find(s, j, |s| - 1, IsNotDigit) == i
  {
    var c := Find(s, j, |s| - 1, IsNotDigit);
    assert c < i ==> IsNotDigit(s[c]);
  }

  /** Headers read so far in front of those still to come. */
  ghost function Prepend(hs: seq<Header>, r: Option<(seq<Header>, nat)>): Option<(seq<Header>, nat)> {
    if r.None? then None else Some((hs + r.value.0, r.value.1))
  }

  /** The header loop of decode_headers_content. */
  method HeaderLoop(s: seq<byte>, off: nat) returns (ok: bool, headers: seq<Header>, i: nat, chunked: bool)
    requires off <= |s|
    ensures DecodeHeaders(s, off) == if ok then Some((headers, i)) else None
    ensures ok ==> chunked == IsChunked(headers)
  {
    hide DecodeHeader, EqualsIgnoreCase;
    var size := |s|;
    ok, headers, i, chunked := true, [], off, false;
    assert DecodeHeaders(s, off) == Prepend(headers, DecodeHeaders(s, i)) by { Empty(DecodeHeaders(s, i)); }
    while i < size - 1 && s[i] == LF
      invariant off <= i <= size
      invariant DecodeHeaders(s, off) == Prepend(headers, DecodeHeaders(s, i))
      invariant chunked == IsChunked(headers)
      decreases size - i
    {
      if s[i + 1] == CR && i + 1 < size - 1 && s[i + 2] == LF {
        i := i + 2;
        assert headers + [] == headers;
        return;
      }
      if s[i + 1] == LF {
        i := i + 1;
        assert headers + [] == headers;
        return;
      }
      var found, h, e := ReadHeader(s, i + 1);
      if !found {
        return false, headers, i, chunked;
      }
      if EqualsIgnoreCase(h.name, TRANSFER_ENCODING_NAME) && EqualsIgnoreCase(h.value, CHUNKED) {
        chunked := true;
      }
      Snoc(headers, h, DecodeHeaders(s, e));
      ChunkedSnoc(headers, h);
      headers := headers + [h];
      i := e;
    }
    assert headers + [] == headers;
  }

  lemma Empty(r: Option<(seq<Header>, nat)>)
    ensures r == Prepend([], r)
  {
    assert r.Some? ==> [] + r.value.0 == r.value.0;
  }

  lemma Snoc(hs: seq<Header>, h: Header, r: Option<(seq<Header>, nat)>)
    ensures Prepend(hs + [h], r) == Prepend(hs, Prepend([h], r))
  {
    assert r.Some? ==> (hs + [h]) + r.value.0 == hs + ([h] + r.value.0);
  }

  lemma ChunkedSnoc(hs: seq<Header>, h: Header)
    ensures IsChunked(hs + [h]) == (IsChunked(hs) || IsChunked([h]))
    ensures IsChunked([h]) == (EqualsIgnoreCase(h.name, TRANSFER_ENCODING_NAME) && EqualsIgnoreCase(h.value, CHUNKED))
  {
    hide EqualsIgnoreCase;
    var t := hs + [h];
    if k :| 0 <= k < |hs| && EqualsIgnoreCase(hs[k].name, TRANSFER_ENCODING_NAME)
            && EqualsIgnoreCase(hs[k].value, CHUNKED) {
      assert t[k] == hs[k];
    }
    assert t[|hs|] == h && [h][0] == h;
  }

  /** One header line. */
  method ReadHeader(s: seq<byte>, start: nat) returns (found: bool, h: Header, e: nat)
    requires start < |s|
    ensures DecodeHeader(s, start) == if found then Some((h, e)) else None
  {
    hide Find;
    var size := |s|;
    h, e := Header([], []), 0;
    var c := FindLoop(s, start, size, IsColon);
    if c == size {
      return false, h, e;
    }
    var v := FindLoop(s, c + 1, size - 1, IsNotSpace);
    e := FindLoop(s, v, size - 1, IsLineEnd);
    h := Header(s[start..c], s[v..e]);
    if e < size - 1 && s[e] == CR {
      e := e + 1;
    }
    found := true;
  }

  /** The chunk loop of decode_headers_content. */
  method ChunkLoop(s: seq<byte>, start: nat) returns (ok: bool, content: seq<byte>)
    ensures DecodeChunks(s, start, []) == if ok then Some(content) else None
  {
    hide Find, ChunkSize, ExtensionEnd, DecodeChunks;
    var size, i := |s|, start;
    ok, content := true, [];
    while true
      invariant DecodeChunks(s, i, content) == DecodeChunks(s, start, [])
      decreases |s| - i
    {
      DecodeStep(s, i, content);
      if i + 2 > size {
        return false, content;
      }
      var chunkLen, e := ChunkHeader(s, i);
      if e == size {
        return false, content;
      }
      if chunkLen == 0 {
        return;
      }
      if chunkLen < 0 || |content| + chunkLen > size || e + 2 + chunkLen > size {
        return false, content;
      }
      content := content + s[e + 2..e + 2 + chunkLen];
      i := e + 2 + chunkLen + 2;
    }
  }

  /** The size and the extension of a chunk; |s| for a line that does not end. */
  method ChunkHeader(s: seq<byte>, start: nat) returns (chunkLen: int, e: nat)
    requires start + 2 <= |s|
    ensures
      var d := Find(s, start, |s| - 2, IsNotAlnum);
      chunkLen == ChunkSize(s, start, d, 0) && ExtensionEnd(s, d) == if e == |s| then None else Some(e)
  {
    ghost var d := Find(s, start, |s| - 2, IsNotAlnum);
    chunkLen := 0;
    var i := start;
    while i < |s| - 2 && !IsNotAlnum(s[i])
      invariant start <= i <= d
      invariant ChunkSize(s, i, d, chunkLen) == ChunkSize(s, start, d, 0)
    {
      chunkLen := Wrap(chunkLen * 16 + DigitValue(s[i]));
      i := i + 1;
    }
    while s[i] != CR && s[i + 1] != LF
      invariant d <= i && i + 2 <= |s|
      invariant ExtensionEnd(s, i) == ExtensionEnd(s, d)
      decreases |s| - i
    {
      if i >= |s| - 2 {
        return chunkLen, |s|;
      }
      i := i + 1;
    }
    e := i;
  }

  /** decode_headers_content. */
  method DecodeHeadersContent(s: seq<byte>, off: nat) returns (r: Option<(seq<Header>, seq<byte>)>)
    requires off <= |s|
    ensures r == DecodeRest(s, off)
  {
    hide DecodeHeaders, DecodeChunks, IsChunked;
    var ok, headers, i, chunked := HeaderLoop(s, off);
    if !ok || i >= |s| || s[i] != LF {
      return None;
    }
    if chunked {
      var good, content := ChunkLoop(s, i + 1);
      return if good then Some((headers, content)) else None;
    }
    return Some((headers, s[i + 1..]));
  }
}
