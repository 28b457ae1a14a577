/** Whole messages with a chunked body: the framer, src/comstack.c:349-442, and the decoder,
    src/http.c:22-146 and 470-539. */
module HttpChunkedMessages {
  import opened Bytes
  import opened Pieces
  import opened HttpFramer
  import opened HttpCodec
  import opened HttpMessages
  import opened HttpRoundTrip
  import opened HttpChunks

  // ---- the framer

  /** Every message in which some line says "chunked" and no content length is bad, requests included: the
      framer finds the end of its body, whatever follows. */
  lemma ChunkedMessage(f: FirstLine, ls: seq<seq<byte>>, ps: seq<Piece>, e: Ending, rest: seq<byte>, k: nat)
    requires IsFirst(f) && AreLines(ls) && !Announced(f, false).headOnly && WellFormed(ps, e)
    requires k < |ls| && SaysChunked(ls[k]) && forall j :: 0 <= j < |ls| ==> !BadLength(ls[j])
    requires |HeadText(f, ls)| + |ChunkedBody(ps, e)| + |rest| <= INT_MAX
    ensures var head, body := HeadText(f, ls), ChunkedBody(ps, e);
            CompleteHttp(head + body + rest, false) == if |head| - 4 > MAX_HEADER then -1 else |head| + |body|
  {
    hide HeadText, CompleteHttp, NotedAll, ChunkedBody, Announced, SaysChunked, BadLength, Chunks;
    var head, body := HeadText(f, ls), ChunkedBody(ps, e);
    NotedExactly(ls, Notes(Announced(f, false).contentLen, false));
    MessageVerdict(f, ls, body + rest, false);
    Regroup(head, body, rest);
    ChunkedRoundTrip(head, ps, e, rest);
  }

  // ---- header by header

  /** The blanks in front of a value belong to the line, not to the value. */
  lemma FieldTrimmed(h: Header)
    ensures var lead := Find(h.value, 0, |h.value|, IsNotSpace);
            var blanks := [SPACE] + h.value[..lead];
            && lead <= |h.value| && AreBlanks(blanks) && (Trimmed(h).value != [] ==> Trimmed(h).value[0] != SPACE)
            && FieldText(h) == FieldLine(h.name, blanks, Trimmed(h).value)
  {
    var lead := Find(h.value, 0, |h.value|, IsNotSpace);
    forall k | 0 <= k < lead ensures h.value[..lead][k] == SPACE {
      assert !IsNotSpace(h.value[k]);
    }
    assert [SPACE] + h.value == ([SPACE] + h.value[..lead]) + h.value[lead..];
  }

  /** The framer takes a header for "chunked" if its value begins with that word. */
  lemma HeaderSays(h: Header)
    requires CleanHeader(h)
    ensures SaysChunked(FieldText(h)) <==>
              EqualsIgnoreCase(h.name, TRANSFER_ENCODING_NAME) && MatchesAt(Trimmed(h).value, 0, CHUNKED)
  {
    hide SaysChunked, SaysLength, Trimmed, EqualsIgnoreCase, MatchesAt, FieldText, FieldLine;
    FieldTrimmed(h);
    var blanks := [SPACE] + h.value[..Find(h.value, 0, |h.value|, IsNotSpace)];
    if EqualsIgnoreCase(h.name, TRANSFER_ENCODING_NAME) {
      EncodingSays(h.name, blanks, Trimmed(h).value);
    } else if EqualsIgnoreCase(h.name, CONTENT_LENGTH_NAME) {
      LengthIsNoCoding(h.name, blanks, Trimmed(h).value);
    } else {
      FieldIs(h.name, blanks, Trimmed(h).value);
      OtherSays(h.name, blanks + Trimmed(h).value);
    }
  }

  lemma LengthIsNoCoding(name: seq<byte>, blanks: seq<byte>, value: seq<byte>)
    requires EqualsIgnoreCase(name, CONTENT_LENGTH_NAME)
    ensures !SaysChunked(FieldLine(name, blanks, value))
  {
    hide MatchesAt, EqualsIgnoreCase;
    FieldMatches(name, CONTENT_LENGTH_NAME, blanks + value);
    NotBoth(FieldLine(name, blanks, value));
  }

  /** The decoder takes it for "chunked" if its value is that word. */
  predicate DecodesChunked(h: Header) {
    EqualsIgnoreCase(h.name, TRANSFER_ENCODING_NAME) && EqualsIgnoreCase(Trimmed(h).value, CHUNKED)
  }

  lemma ChunkedHeaders(hs: seq<Header>)
    ensures IsChunked(TrimmedAll(hs)) <==> exists k :: 0 <= k < |hs| && DecodesChunked(hs[k])
  {
    var ts := TrimmedAll(hs);
    assert forall k :: 0 <= k < |hs| ==> ts[k] == Trimmed(hs[k]) && ts[k].name == hs[k].name;
    if k :| 0 <= k < |hs| && DecodesChunked(hs[k]) { assert ts[k] == Trimmed(hs[k]); }
  }

  lemma {:induction false} FieldAt(hs: seq<Header>, k: nat)
    requires k < |hs|
    ensures FieldsOf(hs)[k] == FieldText(hs[k])
  {
    if k > 0 { FieldAt(hs[1..], k - 1); }
  }

  /** Framer and decoder on every response with a header that says "chunked", in any letter case and among
      any other headers: the framer cuts the message at the end of its body, and the decoder returns the
      headers in order and the chunks joined. */
  lemma ChunkedResponse(r: Response, reason: seq<byte>, k: nat, ps: seq<Piece>, e: Ending, rest: seq<byte>)
    requires CleanStatus(r, reason) && CleanHeaders(r.headers) && BodyAllowed(r.code) && WellFormed(ps, e)
    requires k < |r.headers| && DecodesChunked(r.headers[k])
    requires forall j :: 0 <= j < |r.headers| ==> !BadLength(FieldText(r.headers[j]))
    requires |MessageHead(r, reason)| + |ChunkedBody(ps, e)| + |rest| <= INT_MAX
    ensures var head, body := MessageHead(r, reason), ChunkedBody(ps, e);
            && CompleteHttp(head + body + rest, false) == (if |head| - 4 > MAX_HEADER then -1 else |head + body|)
            && Decode(head + body) == Some(Response(r.version, r.code, TrimmedAll(r.headers), Joined(ps)))
  {
    hide MessageHead, HeadText, CompleteHttp, ChunkedBody, BadLength, SaysChunked, CleanHeader, FieldText, FieldsOf,
         Decode, IsChunked, DecodeChunks, Joined, TrimmedAll, Announced, StatusOf, BodyAllowed;
    var head, body := MessageHead(r, reason), ChunkedBody(ps, e);
    HeadIsText(r, reason);
    StatusAnnounces(r, reason, false);
    FieldsAreLines(r.headers);
    forall j | 0 <= j < |r.headers| ensures !BadLength(FieldsOf(r.headers)[j]) { FieldAt(r.headers, j); }
    FieldAt(r.headers, k);
    HeaderSays(r.headers[k]);
    ChunkedMessage(StatusOf(r, reason), FieldsOf(r.headers), ps, e, rest, k);
    ChunkedHeaders(r.headers);
    DecodeMessage(r, reason, body);
    ChunkedRoundTrip(head, ps, e, []);
  }

  /** A Transfer-Encoding header with another value changes nothing for the framer, wherever it stands. */
  lemma OtherCoding(f: FirstLine, a: seq<seq<byte>>, h: Header, b: seq<seq<byte>>, headOnly: bool)
    requires CleanHeader(h) && EqualsIgnoreCase(h.name, TRANSFER_ENCODING_NAME)
    requires !MatchesAt(Trimmed(h).value, 0, CHUNKED)
    ensures Announcement(f, a + [FieldText(h)] + b, headOnly) == Announcement(f, a + b, headOnly)
  {
    hide NotedAll, SaysChunked, SaysLength, Trimmed, EqualsIgnoreCase, MatchesAt, FieldText, FieldLine;
    HeaderSays(h);
    FieldTrimmed(h);
    EncodingSays(h.name, [SPACE] + h.value[..Find(h.value, 0, |h.value|, IsNotSpace)], Trimmed(h).value);
    SilentLine(a, FieldText(h), b, Notes(Announced(f, headOnly).contentLen, false));
  }

  /** The two differ on a header if and only if its value goes on behind the word. */
  lemma CodingsDiffer(h: Header)
    requires CleanHeader(h)
    ensures SaysChunked(FieldText(h)) != DecodesChunked(h) <==>
              EqualsIgnoreCase(h.name, TRANSFER_ENCODING_NAME) && MatchesAt(Trimmed(h).value, 0, CHUNKED) &&
              |Trimmed(h).value| > |CHUNKED|
  {
    hide SaysChunked, FieldText;
    HeaderSays(h);
  }
}
