/** Encoded HTTP responses go through the framer and the decoder unharmed. */
module HttpRoundTrip {
  import opened Bytes
  import opened Pieces
  import opened Radix
  import opened Atoin
  import opened HttpFramer
  import opened HttpCodec
  import opened HttpMessages
  import opened HttpDecoding

  predicate CleanHeader(h: Header) {
    IsText(h.name) && COLON !in h.name && IsText(h.value)
  }

  predicate CleanHeaders(hs: seq<Header>) {
    forall k :: 0 <= k < |hs| ==> CleanHeader(hs[k])
  }

  predicate TextStatus(r: Response, reason: seq<byte>) {
    IsText(r.version) && SPACE !in r.version && IsText(reason)
  }

  predicate CleanStatus(r: Response, reason: seq<byte>) { TextStatus(r, reason) && r.code <= 999 }

  /** What the encoder expects of a response; the status line has to fit its 80 octet buffer. */
  predicate CleanResponse(r: Response, reason: seq<byte>) {
    CleanStatus(r, reason) && |StatusText(r, reason)| <= 79 && CleanHeaders(r.headers)
  }

  /** Status codes for which the framer expects a body. */
  predicate BodyAllowed(code: nat) {
    var text := Decimal(code);
    text[0] != '1' as int && text != NO_CONTENT && text != NOT_MODIFIED
  }

  // ---- what the encoder keeps

  lemma {:induction false} KeptClean(hs: seq<Header>)
    requires CleanHeaders(hs)
    ensures CleanHeaders(Kept(hs)) && forall k :: 0 <= k < |Kept(hs)| ==> !Dropped(Kept(hs)[k])
  {
    if hs != [] { KeptClean(hs[1..]); }
  }

  // ---- the parts of a message

  lemma ThreeDigits(code: nat)
    requires code <= 999
    ensures |Decimal(code)| <= 3
  {
    assert Pow(10, 1) == 10 && Pow(10, 2) == 100 && Pow(10, 3) == 1000;
    LengthBound(10, code, 3);
  }

  // ---- the decoder

  /** The decoder drops blanks in front of a header value. */
  function Trimmed(h: Header): Header {
    Header(h.name, h.value[Find(h.value, 0, |h.value|, IsNotSpace)..])
  }

  function TrimmedAll(hs: seq<Header>): (r: seq<Header>)
    ensures |r| == |hs| && forall k :: 0 <= k < |hs| ==> r[k] == Trimmed(hs[k])
  {
    seq(|hs|, k requires 0 <= k < |hs| => Trimmed(hs[k]))
  }

  // ---- every message with clean headers

  /** A head with the headers of `r` as they are. */
  function MessageHead(r: Response, reason: seq<byte>): seq<byte> {
    StatusText(r, reason) + (Lines(r.headers) + CRLF)
  }

  function StatusOf(r: Response, reason: seq<byte>): FirstLine {
    Status(r.version, Decimal(r.code) + ([SPACE] + reason))
  }

  function FieldText(h: Header): seq<byte> { FieldLine(h.name, [SPACE], h.value) }

  function FieldsOf(hs: seq<Header>): (ls: seq<seq<byte>>)
    ensures |ls| == |hs|
  {
    if hs == [] then [] else [FieldText(hs[0])] + FieldsOf(hs[1..])
  }

  lemma {:induction false} LinesAreBlock(hs: seq<Header>)
    ensures Lines(hs) == Block(FieldsOf(hs))
  {
    if hs != [] {
      LinesAreBlock(hs[1..]);
      LineIsField(hs[0], Lines(hs[1..]));
    }
  }

  lemma LineIsField(h: Header, rest: seq<byte>)
    ensures Line(h) + rest == FieldText(h) + (CRLF + rest)
  {
    assert h.name + [COLON, SPACE] + h.value == FieldText(h);
    Regroup(FieldText(h), CRLF, rest);
  }

  lemma {:induction false} FieldsAreLines(hs: seq<Header>)
    requires CleanHeaders(hs)
    ensures AreLines(FieldsOf(hs))
  {
    if hs != [] { FieldsAreLines(hs[1..]); }
  }

  lemma HeadIsText(r: Response, reason: seq<byte>)
    ensures MessageHead(r, reason) == HeadText(StatusOf(r, reason), FieldsOf(r.headers))
  {
    hide Block, FieldsOf, Lines;
    LinesAreBlock(r.headers);
    StatusIsText(r, reason);
    Regroup(FirstText(StatusOf(r, reason)), CRLF, Lines(r.headers) + CRLF);
  }

  lemma StatusIsText(r: Response, reason: seq<byte>)
    ensures StatusText(r, reason) == FirstText(StatusOf(r, reason)) + CRLF
  {
    hide Decimal;
    var code := Decimal(r.code);
    Regroup(HTTP_SLASH, r.version, [SPACE] + (code + ([SPACE] + reason)));
    Regroup(HTTP_SLASH + r.version, [SPACE], code + ([SPACE] + reason));
    Regroup(HTTP_SLASH + r.version + [SPACE], code, [SPACE] + reason);
    Regroup(HTTP_SLASH + r.version + [SPACE] + code, [SPACE], reason);
  }

  lemma StatusIsFirst(r: Response, reason: seq<byte>)
    requires TextStatus(r, reason)
    ensures IsFirst(StatusOf(r, reason))
  {
    hide Decimal;
    DecimalValue(r.code);
    DigitsAreText(Decimal(r.code));
  }

  lemma DigitsAreText(text: seq<byte>)
    requires IsNumeral(10, text)
    ensures IsLine(text)
  {
  }

  /** The framer expects a body for the codes that allow one. */
  lemma StatusAnnounces(r: Response, reason: seq<byte>, headOnly: bool)
    requires CleanStatus(r, reason)
    ensures IsFirst(StatusOf(r, reason))
    ensures Announced(StatusOf(r, reason), headOnly) ==
              if headOnly || !BodyAllowed(r.code) then Start(true, 0) else Start(false, -1)
  {
    hide Decimal;
    ThreeDigits(r.code);
    CodeBegins(Decimal(r.code), reason, NO_CONTENT);
    CodeBegins(Decimal(r.code), reason, NOT_MODIFIED);
    FirstBegins(Decimal(r.code), [SPACE] + reason, '1' as int);
  }

  lemma FirstBegins(a: seq<byte>, b: seq<byte>, x: byte)
    requires a != []
    ensures [x] <= a + b <==> a[0] == x
  {
    assert (a + b)[0] == a[0];
  }

  lemma CodeBegins(code: seq<byte>, reason: seq<byte>, known: seq<byte>)
    requires |code| <= 3 == |known| && SPACE !in known
    ensures known <= code + ([SPACE] + reason) <==> code == known
  {
    var t := code + ([SPACE] + reason);
    if known <= t {
      forall k | 0 <= k < 3 ensures t[k] != SPACE { assert t[k] == known[k]; }
      assert t[|code|] == SPACE;
      assert known == t[..3];
    }
  }

  /** The decoder on every message with clean headers: they come back in order without leading blanks,
      and the body is decoded if and only if one of them says "chunked". */
  lemma DecodeMessage(r: Response, reason: seq<byte>, body: seq<byte>)
    requires CleanStatus(r, reason) && CleanHeaders(r.headers)
    ensures var s, hs := MessageHead(r, reason) + body, TrimmedAll(r.headers);
            Decode(s) ==
              if !IsChunked(hs) then Some(Response(r.version, r.code, hs, body))
              else
                var content := DecodeChunks(s, |MessageHead(r, reason)|, []);
                if content.None? then None else Some(Response(r.version, r.code, hs, content.value))
  {
    hide Decode, MessageHead, HeadOctets, TrimmedAll, IsChunked, DecodeChunks, HeadersOf, Decimal, NumVal, CleanHeader,
         IsField, OpeningOctets;
    var l, fs := OpeningOf(r, reason), TrimmedFields(r.headers);
    HeadIsOctets(r, reason);
    ThreeDigits(r.code);
    DecimalValue(r.code);
    FieldsTrimmed(r.headers);
    LongEnough(r, reason);
    MessageDecoded(l, fs, false, body);
  }

  function OpeningOf(r: Response, reason: seq<byte>): Opening { Opening(r.version, Decimal(r.code), reason, false) }

  /** A header as the decoder sees it. */
  function TrimmedField(h: Header): Field {
    var lead := Find(h.value, 0, |h.value|, IsNotSpace);
    Field(h.name, [SPACE] + h.value[..lead], h.value[lead..], false)
  }

  function TrimmedFields(hs: seq<Header>): seq<Field> {
    if hs == [] then [] else [TrimmedField(hs[0])] + TrimmedFields(hs[1..])
  }

  lemma FieldTrims(h: Header)
    requires CleanHeader(h)
    ensures IsField(TrimmedField(h)) && FieldOctets(TrimmedField(h)) == Line(h)
  {
    var lead := Find(h.value, 0, |h.value|, IsNotSpace);
    var blanks, value := [SPACE] + h.value[..lead], h.value[lead..];
    forall k | 0 <= k < |blanks| ensures blanks[k] == SPACE { if k > 0 { assert !IsNotSpace(h.value[k - 1]); } }
    LineRegrouped(h.name, h.value[..lead], value);
    assert h.value == h.value[..lead] + value;
  }

  lemma LineRegrouped(name: seq<byte>, lead: seq<byte>, value: seq<byte>)
    ensures name + ([COLON] + (([SPACE] + lead) + (value + CRLF))) == name + [COLON, SPACE] + (lead + value) + CRLF
  {
    var mark: seq<byte> := [COLON, SPACE];
    assert [COLON] + (([SPACE] + lead) + (value + CRLF)) == mark + ((lead + value) + CRLF);
    Regroup(name, mark, (lead + value) + CRLF);
    Regroup(name + mark, lead + value, CRLF);
  }

  lemma {:induction false} FieldsTrimmed(hs: seq<Header>)
    requires CleanHeaders(hs)
    ensures AreFields(TrimmedFields(hs)) && Fields(TrimmedFields(hs)) == Lines(hs)
    ensures HeadersOf(TrimmedFields(hs)) == TrimmedAll(hs)
  {
    hide CleanHeader, IsField, FieldOctets, Line;
    if hs != [] {
      var x, rest := TrimmedField(hs[0]), TrimmedFields(hs[1..]);
      FieldTrims(hs[0]);
      FieldsTrimmed(hs[1..]);
      assert TrimmedFields(hs)[0] == x && TrimmedFields(hs)[1..] == rest;
      assert hs == [hs[0]] + hs[1..];
      TrimmedHead(hs[0], hs[1..]);
    }
  }

  lemma HeadIsOctets(r: Response, reason: seq<byte>)
    requires CleanHeaders(r.headers)
    ensures MessageHead(r, reason) == HeadOctets(OpeningOf(r, reason), TrimmedFields(r.headers), false)
  {
    hide Lines, Fields, TrimmedFields, AreFields, HeadersOf, TrimmedAll, Decimal, CleanHeaders;
    FieldsTrimmed(r.headers);
    StatusIsText(r, reason);
    var code := Decimal(r.code);
    Regroup(HTTP_SLASH, r.version + ([SPACE] + (code + ([SPACE] + reason))), CRLF);
    Regroup(r.version, [SPACE] + (code + ([SPACE] + reason)), CRLF);
    Regroup([SPACE], code + ([SPACE] + reason), CRLF);
    Regroup(code, [SPACE] + reason, CRLF);
    Regroup([SPACE], reason, CRLF);
  }

  lemma LongEnough(r: Response, reason: seq<byte>)
    ensures |MessageHead(r, reason)| >= 10
  {
    hide Lines;
  }

  // ---- encoded responses

  /** The headers that the encoder writes. */
  function Written(r: Response): seq<Header> { [LengthHeader(r)] + Kept(r.headers) }

  lemma EncodedMessage(r: Response, reason: seq<byte>)
    requires |StatusText(r, reason)| <= 79
    ensures Head(r, reason) == MessageHead(r.(headers := Written(r)), reason)
  {
    hide Kept, Line, LengthHeader, StatusText, Lines;
    var status, length, kept := StatusText(r, reason), Line(LengthHeader(r)), Lines(Kept(r.headers));
    WrittenLines(r);
    SameStatus(r, reason);
    Regroup(status, length, kept);
    Regroup(status, length + kept, CRLF);
  }

  lemma WrittenLines(r: Response)
    ensures Lines(Written(r)) == Line(LengthHeader(r)) + Lines(Kept(r.headers))
  {
    hide Kept, Line, LengthHeader;
    assert Written(r)[1..] == Kept(r.headers);
  }

  lemma SameStatus(r: Response, reason: seq<byte>)
    ensures StatusText(r.(headers := Written(r)), reason) == StatusText(r, reason)
  {
  }

  lemma WrittenClean(r: Response)
    requires CleanHeaders(r.headers)
    ensures CleanHeaders(Written(r))
  {
    KeptClean(r.headers);
    LengthHeaderClean(r);
  }

  lemma {:induction false} KeptNoted(hs: seq<Header>, n: Notes)
    requires CleanHeaders(hs) && forall k :: 0 <= k < |hs| ==> !Dropped(hs[k])
    ensures NotedAll(FieldsOf(hs), n) == Some(n)
  {
    hide Noted;
    if hs != [] {
      OtherSays(hs[0].name, [SPACE] + hs[0].value);
      NotedIs(FieldText(hs[0]), n);
      assert FieldsOf(hs)[1..] == FieldsOf(hs[1..]);
      KeptNoted(hs[1..], n);
    }
  }

  /** An encoded response announces the length of its body. */
  lemma WrittenNoted(r: Response, n: Notes)
    requires CleanHeaders(r.headers) && |r.content| <= INT_MAX
    ensures NotedAll(FieldsOf(Written(r)), n) == Some(Notes(|r.content|, n.chunked))
  {
    hide Noted, Kept;
    var h, text := LengthHeader(r), Decimal(|r.content|);
    DecimalValue(|r.content|);
    assert text + [] == text;
    LengthSays(h.name, [SPACE], text, []);
    NotedIs(FieldText(h), n);
    KeptClean(r.headers);
    KeptNoted(Kept(r.headers), Notes(|r.content|, n.chunked));
    assert Written(r)[1..] == Kept(r.headers);
    assert FieldsOf(Written(r))[1..] == FieldsOf(Kept(r.headers));
  }

  /** An encoded response, followed by anything: with its header section within the limit it is framed at
      exactly its length, or at the length of its head if no body is awaited; otherwise it is rejected. */
  lemma ResponseFraming(r: Response, reason: seq<byte>, rest: seq<byte>, headOnly: bool)
    requires CleanResponse(r, reason) && |Encode(r, reason)| <= INT_MAX
    ensures CompleteHttp(Encode(r, reason) + rest, headOnly) ==
              if |Head(r, reason)| - 4 > MAX_HEADER then -1
              else if headOnly || !BodyAllowed(r.code) then |Head(r, reason)|
              else |Encode(r, reason)|
  {
    hide CompleteHttp, Head, HeadText, FieldsOf, Announced, NotedAll, BodyAllowed, MessageHead, StatusOf;
    var w := r.(headers := Written(r));
    var f, ls := StatusOf(w, reason), FieldsOf(w.headers);
    EncodedMessage(r, reason);
    HeadIsText(w, reason);
    StatusAnnounces(w, reason, headOnly);
    WrittenClean(r);
    FieldsAreLines(w.headers);
    WrittenNoted(r, Notes(Announced(f, headOnly).contentLen, false));
    Regroup(Head(r, reason), r.content, rest);
    if headOnly || !BodyAllowed(r.code) {
      HeadOnlyMessage(f, ls, r.content + rest, headOnly);
    } else {
      SizedMessage(f, ls, r.content + rest, |r.content|);
    }
  }

  /** What comes back: one computed Content-Length followed by the kept headers in order, with blanks in front of
      values dropped. */
  function Restored(r: Response): Response {
    Response(r.version, r.code, [LengthHeader(r)] + TrimmedAll(Kept(r.headers)), r.content)
  }

  lemma ShortStatus(r: Response, reason: seq<byte>)
    requires CleanResponse(r, reason)
    ensures Decode(Encode(r, reason)) == Some(Restored(r))
  {
    hide Kept, Decode, Head, MessageHead, TrimmedAll, IsChunked, CleanHeader, StatusText;
    EncodedMessage(r, reason);
    WrittenClean(r);
    LengthHeaderClean(r);
    TrimmedHead(LengthHeader(r), Kept(r.headers));
    NotChunked(r, TrimmedAll(Written(r)));
    DecodeMessage(r.(headers := Written(r)), reason, r.content);
  }

  /** Response round trip: version, code, headers and body come back if and only if the code has at most three
      digits and the status line fits the buffer that it is printed into. */
  lemma ResponseRoundTrip(r: Response, reason: seq<byte>)
    requires TextStatus(r, reason) && CleanHeaders(r.headers)
    ensures Decode(Encode(r, reason)) == Some(Restored(r)) <==> r.code <= 999 && |StatusText(r, reason)| <= 79
  {
    hide Kept, Decode, Encode, TrimmedAll, StatusText, CleanHeader, TextStatus;
    if |StatusText(r, reason)| > 79 {
      LongStatus(r, reason);
    } else if r.code <= 999 {
      ShortStatus(r, reason);
    } else {
      FourDigitCode(r, reason);
    }
  }

  lemma FourDigitCode(r: Response, reason: seq<byte>)
    requires TextStatus(r, reason) && CleanHeaders(r.headers) && |StatusText(r, reason)| <= 79 && r.code > 999
    ensures Decode(Encode(r, reason)) == None
  {
    hide MessageHead, HeadOctets, Decimal, OpeningOctets, OccursAt, CleanHeaders, Kept, Head, DecodeFirst;
    var w := r.(headers := Written(r));
    EncodedMessage(r, reason);
    WrittenClean(r);
    HeadIsOctets(w, reason);
    FourDigits(r.code);
    StartsWithOpening(OpeningOf(w, reason), TrimmedFields(w.headers), r.content);
    LongCode(Encode(r, reason), OpeningOf(w, reason));
  }

  lemma StartsWithOpening(l: Opening, fs: seq<Field>, content: seq<byte>)
    ensures OccursAt(HeadOctets(l, fs, false) + content, 0, OpeningOctets(l))
  {
    hide OpeningOctets, Fields;
  }

  lemma FourDigits(code: nat)
    requires code > 999
    ensures |Decimal(code)| > 3 && forall k :: 0 <= k < |Decimal(code)| ==> 48 <= Decimal(code)[k] <= 57
  {
    DecimalValue(code);
    hide Decimal;
    var text := Decimal(code);
    assert Pow(10, 0) == 1 && Pow(10, 1) == 10 && Pow(10, 2) == 100 && Pow(10, 3) == 1000;
  }

  /** A status line that does not fit loses its line end, and the Content-Length header with it. */
  lemma LongStatus(r: Response, reason: seq<byte>)
    requires TextStatus(r, reason) && CleanHeaders(r.headers) && |StatusText(r, reason)| > 79
    ensures var d := Decode(Encode(r, reason)); d.Some? ==> d.value.headers == TrimmedAll(Kept(r.headers))
  {
    hide Kept, DecodeFirst, DecodeHeaders, DecodeChunks, IsChunked, TrimmedAll, StatusText, CleanHeader, Lines, Line,
         OccursAt, Fields, HeadersOf, TrimmedFields, AreFields, CleanHeaders, TextStatus;
    var s, fs := Encode(r, reason), TrimmedFields(Kept(r.headers));
    var front, lines := StatusText(r, reason)[..79] + Line(LengthHeader(r)), Lines(Kept(r.headers)) + CRLF;
    Parts(front, lines, r.content);
    assert s == front + lines + r.content by { Regroup(front, Lines(Kept(r.headers)), CRLF); }
    LongFront(r, reason, front);
    KeptClean(r.headers);
    FieldsTrimmed(Kept(r.headers));
    FrontAt(s, front);
    if DecodeFirst(s).Some? {
      FirstLineFeed(s);
      FirstEndsInLf(s);
      FieldsDecoded(s, |front| - 1, fs, false);
    }
  }

  lemma FrontAt(s: seq<byte>, front: seq<byte>)
    requires OccursAt(s, 0, front)
    ensures |front| <= |s| && forall k :: 0 <= k < |front| ==> s[k] == front[k]
  {
    forall k | 0 <= k < |front| ensures s[k] == front[k] { assert s[0 + k] == front[k]; }
  }

  lemma LongFront(r: Response, reason: seq<byte>, front: seq<byte>)
    requires TextStatus(r, reason) && |StatusText(r, reason)| > 79
    requires front == StatusText(r, reason)[..79] + Line(LengthHeader(r))
    ensures |front| > 79 && front[|front| - 1] == LF && forall k :: 0 <= k < |front| - 1 ==> front[k] != LF
  {
    hide StatusText, Decimal;
    StatusLineFeed(r, reason);
    var h := LengthHeader(r);
    LengthHeaderClean(r);
    forall k | 79 <= k < |front| - 1 ensures front[k] != LF {
      assert front[k] == Line(h)[k - 79];
      assert k - 79 < |h.name| ==> front[k] == h.name[k - 79];
      assert |h.name| + 2 <= k - 79 < |Line(h)| - 2 ==> front[k] == h.value[k - 79 - |h.name| - 2];
    }
  }

  lemma StatusLineFeed(r: Response, reason: seq<byte>)
    requires TextStatus(r, reason)
    ensures var text := StatusText(r, reason); forall k :: 0 <= k < |text| - 1 ==> text[k] != LF
  {
    hide FirstText, StatusText;
    var f := StatusOf(r, reason);
    StatusIsText(r, reason);
    StatusIsFirst(r, reason);
    FirstIsLine(f);
    var t := FirstText(f) + CRLF;
    forall k | 0 <= k < |t| - 1 ensures t[k] != LF {
      if k < |FirstText(f)| { assert t[k] == FirstText(f)[k] && !IsEol(FirstText(f)[k]); }
    }
  }

  /** The encoder drops the two headers that it computes, however their names are spelled, and no others. */
  lemma KeptExactly(a: seq<Header>, h: Header, b: seq<Header>)
    ensures Kept([]) == []
    ensures Kept(a + [h] + b) == Kept(a) + (if IsComputed(h.name) then [] else [h]) + Kept(b)
  {
    hide Kept;
    KeptJoin(a + [h], b);
    KeptJoin(a, [h]);
    KeptOne(h);
  }

  predicate IsComputed(name: seq<byte>) {
    var lower := seq(|name|, k requires 0 <= k < |name| => Lower(name[k]));
    lower == Ascii("content-length") || lower == Ascii("transfer-encoding")
  }

  lemma KeptOne(h: Header)
    ensures Kept([]) == [] && Kept([h]) == if IsComputed(h.name) then [] else [h]
  {
    assert [h][1..] == [];
    SameLetters(h.name, CONTENT_LENGTH_NAME, Ascii("content-length"));
    SameLetters(h.name, TRANSFER_ENCODING_NAME, Ascii("transfer-encoding"));
  }

  lemma SameLetters(name: seq<byte>, text: seq<byte>, lower: seq<byte>)
    requires |text| == |lower| && forall k :: 0 <= k < |text| ==> Lower(text[k]) == lower[k]
    ensures EqualsIgnoreCase(name, text) <==>
              seq(|name|, k requires 0 <= k < |name| => Lower(name[k])) == lower
  {
    var all := seq(|name|, k requires 0 <= k < |name| => Lower(name[k]));
    if EqualsIgnoreCase(name, text) {
      forall k | 0 <= k < |name| ensures all[k] == lower[k] { assert Lower(name[0 + k]) == Lower(text[k]); }
    }
    if all == lower {
      forall k | 0 <= k < |text| ensures Lower(name[0 + k]) == Lower(text[k]) { assert all[k] == lower[k]; }
    }
  }

  lemma KeptStep(h: Header, hs: seq<Header>)
    ensures Kept([h] + hs) == (if Dropped(h) then [] else [h]) + Kept(hs)
  {
    hide Dropped;
    assert ([h] + hs)[1..] == hs;
  }

  lemma {:induction false} KeptJoin(a: seq<Header>, b: seq<Header>)
    ensures Kept(a + b) == Kept(a) + Kept(b)
  {
    hide Dropped, Kept;
    if a == [] {
      assert a + b == b;
      KeptNothing();
    } else {
      var h, rest := a[0], a[1..];
      KeptJoin(rest, b);
      assert a == [h] + rest && a + b == [h] + (rest + b);
      KeptStep(h, rest);
      KeptStep(h, rest + b);
      Regroup(if Dropped(h) then [] else [h], Kept(rest), Kept(b));
    }
  }

  lemma KeptNothing()
    ensures Kept([]) == []
  {
  }

  lemma LengthHeaderClean(r: Response)
    ensures CleanHeader(LengthHeader(r)) && Trimmed(LengthHeader(r)) == LengthHeader(r)
    ensures !EqualsIgnoreCase(LengthHeader(r).name, TRANSFER_ENCODING_NAME)
  {
    var name := LengthHeader(r).name;
    forall k | 0 <= k < 14 ensures name[k] != COLON && !IsLineEnd(name[k]) { }
  }

  lemma TrimmedHead(h: Header, hs: seq<Header>)
    ensures TrimmedAll([h] + hs) == [Trimmed(h)] + TrimmedAll(hs)
  {
  }

  lemma NotChunked(r: Response, got: seq<Header>)
    requires CleanHeaders(r.headers)
    requires got == [LengthHeader(r)] + TrimmedAll(Kept(r.headers))
    ensures !IsChunked(got)
  {
    KeptClean(r.headers);
    LengthHeaderClean(r);
    forall k | 0 <= k < |got| ensures !EqualsIgnoreCase(got[k].name, TRANSFER_ENCODING_NAME) {
      if k > 0 { assert !Dropped(Kept(r.headers)[k - 1]); }
    }
  }
}
