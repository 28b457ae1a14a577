/** What cs_complete_auto and cs_complete_auto_head of src/comstack.c answer on the messages of both
    protocols, each behind the dispatch on the first octets. */
module AutoFraming {
  import opened Bytes
  import opened HttpFramer
  import opened HttpCodec
  import opened HttpMessages
  import opened HttpRoundTrip
  import opened HttpChunks
  import opened HttpChunkedMessages
  import opened Framing
  import BerFramer

  /** The four octets that the dispatch looks at are printable ASCII, from blank to tilde. */
  predicate StartsPrintable(t: seq<byte>) {
    |t| >= 4 && forall k :: 0 <= k < 4 ==> ' ' as int <= t[k] <= '~' as int
  }

  // ---- HTTP

  /** A message whose first line begins with four printable octets reaches the HTTP framer. */
  lemma TextIsHttp(f: FirstLine, ls: seq<seq<byte>>, rest: seq<byte>, headOnly: bool)
    requires StartsPrintable(FirstText(f))
    ensures var s := HeadText(f, ls) + rest;
            CompleteAuto(s, headOnly) == CompleteHttp(s, headOnly)
  {
    hide CompleteHttp, Block;
    var s, line := HeadText(f, ls) + rest, FirstText(f);
    assert forall k :: 0 <= k < 4 ==> s[k] == line[k];
  }

  lemma StatusIsPrintable(f: FirstLine)
    requires f.Status?
    ensures StartsPrintable(FirstText(f))
  {
    assert forall k :: 0 <= k < 4 ==> FirstText(f)[k] == HTTP_SLASH[k];
  }

  /** Every encoded response, followed by anything, is framed at its length; at the length of its head if
      only that is awaited or the code allows no body; and is rejected past the header limit. */
  lemma AutoResponse(r: Response, reason: seq<byte>, rest: seq<byte>, headOnly: bool)
    requires CleanResponse(r, reason) && |Encode(r, reason)| <= INT_MAX
    ensures CompleteAuto(Encode(r, reason) + rest, headOnly) ==
              if |Head(r, reason)| - 4 > MAX_HEADER then -1
              else if headOnly || !BodyAllowed(r.code) then |Head(r, reason)|
              else |Encode(r, reason)|
  {
    hide CompleteAuto, CompleteHttp, Head, HeadText, MessageHead, FieldsOf, StatusOf;
    var w := r.(headers := Written(r));
    EncodedMessage(r, reason);
    HeadIsText(w, reason);
    Pieces.Regroup(Head(r, reason), r.content, rest);
    assert StatusOf(w, reason).Status? by { IsStatus(w, reason); }
    StatusIsPrintable(StatusOf(w, reason));
    TextIsHttp(StatusOf(w, reason), FieldsOf(w.headers), r.content + rest, headOnly);
    ResponseFraming(r, reason, rest, headOnly);
  }

  lemma IsStatus(r: Response, reason: seq<byte>)
    ensures StatusOf(r, reason).Status?
  {
  }

  /** Every chunked message, request or response, followed by anything, is framed at its length. */
  lemma AutoChunked(f: FirstLine, ls: seq<seq<byte>>, ps: seq<Piece>, e: Ending, rest: seq<byte>, k: nat)
    requires IsFirst(f) && StartsPrintable(FirstText(f)) && AreLines(ls) && !Announced(f, false).headOnly
    requires WellFormed(ps, e) && k < |ls| && SaysChunked(ls[k])
    requires forall j :: 0 <= j < |ls| ==> !BadLength(ls[j])
    requires |HeadText(f, ls)| + |ChunkedBody(ps, e)| + |rest| <= INT_MAX
    ensures var head, body := HeadText(f, ls), ChunkedBody(ps, e);
            CompleteAuto(head + body + rest, false) == if |head| - 4 > MAX_HEADER then -1 else |head| + |body|
  {
    hide CompleteAuto, CompleteHttp, HeadText, ChunkedBody;
    Pieces.Regroup(HeadText(f, ls), ChunkedBody(ps, e), rest);
    TextIsHttp(f, ls, ChunkedBody(ps, e) + rest, false);
    ChunkedMessage(f, ls, ps, e, rest, k);
  }

  predicate LengthOfAll(ls: seq<seq<byte>>, n: nat) {
    || (n == 0 && forall j :: 0 <= j < |ls| ==> !SaysLength(ls[j]))
    || exists j :: 0 <= j < |ls| && LastLength(ls, j) && LengthSaid(ls[j]) == Some(n)
  }

  /** Every request without a chunked coding is complete with as many octets behind its head as the last
      Content-Length says, none if there is no such line. */
  lemma AutoRequest(line: seq<byte>, ls: seq<seq<byte>>, rest: seq<byte>, n: nat)
    requires IsFirst(Other(line)) && StartsPrintable(line) && AreLines(ls)
    requires forall j :: 0 <= j < |ls| ==> !SaysChunked(ls[j]) && !BadLength(ls[j])
    requires LengthOfAll(ls, n)
    ensures var head := HeadText(Other(line), ls);
            CompleteAuto(head + rest, false) ==
              if |head| - 4 > MAX_HEADER || |head| + n > INT_MAX then -1 else if |rest| >= n then |head| + n else 0
  {
    hide CompleteAuto, CompleteHttp, HeadText, NotedAll, SaysChunked, SaysLength, LengthSaid;
    NotedExactly(ls, Notes(0, false));
    TextIsHttp(Other(line), ls, rest, false);
    SizedMessage(Other(line), ls, rest, n);
  }

  // ---- BER

  /** Every element that does not begin like text is measured exactly, whatever follows it, and rejected if
      it is nested too deeply. */
  lemma AutoElement(e: BerFramer.Element, rest: seq<byte>, headOnly: bool)
    requires BerFramer.Valid(e) && !StartsPrintable(BerFramer.Encode(e))
    ensures CompleteAuto(BerFramer.Encode(e) + rest, headOnly) ==
              if BerFramer.Depth(e) <= BerFramer.MAX_LEVEL then |BerFramer.Encode(e)| else -1
  {
    hide BerFramer.Complete, BerFramer.Encode, BerFramer.Valid, BerFramer.Depth;
    var o := BerFramer.Encode(e);
    assert o + [] == o;
    BerFramer.CompleteExact(o + rest, 0, 0, e);
    BerFramer.CompleteExact(o, 0, 0, e);
    BerFramer.NotEndOfContents(o, 0, e);
    if |o| < 4 && forall k :: 0 <= k < |o| ==> Printable(o[k]) {
      ShortTextIsOpen(o);
      assert false;
    }
    assert forall k :: 0 <= k < |o| ==> (o + rest)[k] == o[k];
  }

  /** One that does is taken for text, and without a line end it is awaited for ever. */
  lemma ElementTakenForText(e: BerFramer.Element, headOnly: bool)
    requires StartsPrintable(BerFramer.Encode(e)) && |BerFramer.Encode(e)| > 5 && IsLine(BerFramer.Encode(e))
    ensures CompleteAuto(BerFramer.Encode(e), headOnly) == 0
  {
    hide BerFramer.Encode;
  }
}
