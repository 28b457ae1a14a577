/** Chunked bodies with extensions and trailers: the framer's walk (src/comstack.c) and the decoder's loop
    (src/http.c) agree. */
module HttpChunks {
  import opened Bytes
  import opened Pieces
  import opened Atoin
  import opened HttpFramer
  import opened HttpCodec
  import opened HttpMessages

  /** A chunk with the text of its size and what else its size line holds. */
  datatype Piece = Piece(size: seq<byte>, extension: seq<byte>, data: seq<byte>)

  /** The chunk of size zero, and the lines of the trailer section. */
  datatype Ending = Ending(zero: seq<byte>, extension: seq<byte>, trailers: seq<seq<byte>>)

  /** A size is a hexadecimal numeral, leading zeros and either letter case allowed; an extension begins with
      an octet that is no letter or digit. */
  predicate IsSizeLine(size: seq<byte>, extension: seq<byte>) {
    && IsNumeral(16, size) && Numeral(16, size) <= INT_MAX
    && IsLine(extension) && (extension != [] ==> IsNotAlnum(extension[0]))
  }

  predicate IsPiece(p: Piece) {
    IsSizeLine(p.size, p.extension) && Numeral(16, p.size) == |p.data| && p.data != []
  }

  predicate IsEnding(e: Ending) {
    IsSizeLine(e.zero, e.extension) && Numeral(16, e.zero) == 0 && AreLines(e.trailers)
  }

  function SizeLine(size: seq<byte>, extension: seq<byte>): seq<byte> {
    size + (extension + CRLF)
  }

  function PieceText(p: Piece): seq<byte> {
    SizeLine(p.size, p.extension) + (p.data + CRLF)
  }

  function EndingText(e: Ending): seq<byte> {
    SizeLine(e.zero, e.extension) + (Block(e.trailers) + CRLF)
  }

  function ChunkedBody(ps: seq<Piece>, e: Ending): (r: seq<byte>)
    ensures |r| >= 4
  {
    if ps == [] then EndingText(e) else PieceText(ps[0]) + ChunkedBody(ps[1..], e)
  }

  function Joined(ps: seq<Piece>): seq<byte> {
    if ps == [] then [] else ps[0].data + Joined(ps[1..])
  }

  predicate WellFormed(ps: seq<Piece>, e: Ending) {
    (forall k :: 0 <= k < |ps| ==> IsPiece(ps[k])) && IsEnding(e)
  }

  // ---- parts

  /** Where the parts of a size line are. */
  lemma SizeLineAt(s: seq<byte>, i: nat, size: seq<byte>, extension: seq<byte>)
    requires OccursAt(s, i, SizeLine(size, extension))
    ensures var d := i + |size| + |extension|;
            && OccursAt(s, i, size) && OccursAt(s, i + |size|, extension) && |SizeLine(size, extension)| == d + 2 - i
            && d + 2 <= |s| && s[d] == CR && s[d + 1] == LF && OccursAt(s, d, CRLF)
  {
    hide OccursAt;
    OccursSplit(s, i, size, extension + CRLF);
    OccursSplit(s, i + |size|, extension, CRLF);
    CrlfAt(s, i + |size| + |extension|);
  }

  /** Where the parts of a chunk are. */
  lemma PieceAt(s: seq<byte>, i: nat, p: Piece, rest: seq<byte>)
    requires OccursAt(s, i, PieceText(p) + rest)
    ensures
      var d := i + |SizeLine(p.size, p.extension)|;
      var e := d + |p.data|;
      && OccursAt(s, i, SizeLine(p.size, p.extension)) && e + 2 + |rest| <= |s| && |PieceText(p)| == e + 2 - i
      && s[d..e] == p.data && s[e] == CR && s[e + 1] == LF && OccursAt(s, e + 2, rest)
  {
    hide OccursAt, SizeLine;
    var line := SizeLine(p.size, p.extension);
    OccursSplit(s, i, PieceText(p), rest);
    OccursSlice(s, i + |PieceText(p)|, rest);
    OccursSplit(s, i, line, p.data + CRLF);
    OccursSplit(s, i + |line|, p.data, CRLF);
    CrlfAt(s, i + |line| + |p.data|);
  }

  // ---- the framer

  /** The size, and the end of its line. */
  lemma SizeLineRead(s: seq<byte>, i: nat, size: seq<byte>, extension: seq<byte>)
    requires IsSizeLine(size, extension) && OccursAt(s, i, SizeLine(size, extension))
    ensures i < |s| && |size| > 0 && Atoi(16, s, i) == Some((|size|, Numeral(16, size)))
    ensures i + |SizeLine(size, extension)| <= |s|
    ensures SeekLine(s, i + |size|) == Some(i + |SizeLine(size, extension)|)
  {
    hide OccursAt, Atoi, SeekLine;
    SizeLineAt(s, i, size, extension);
    assert !IsDigit(16, s[i + |size|]) by { EndsSize(s, i + |size|, extension); }
    SizeRead(s, i, size);
    NoEolIn(s, i + |size|, extension);
    LineSought(s, i + |size|, i + |size| + |extension|);
  }

  lemma EndsSize(s: seq<byte>, j: nat, extension: seq<byte>)
    requires OccursAt(s, j, extension) && j + |extension| < |s| && s[j + |extension|] == CR
    requires extension != [] ==> IsNotAlnum(extension[0])
    ensures IsNotAlnum(s[j]) && !IsDigit(16, s[j])
  {
    if extension != [] { assert s[j + 0] == extension[0]; }
  }

  lemma NoEolIn(s: seq<byte>, j: nat, t: seq<byte>)
    requires OccursAt(s, j, t) && IsLine(t)
    ensures j + |t| <= |s| && forall m :: j <= m < j + |t| ==> !IsEol(s[m])
  {
    forall m | j <= m < j + |t| ensures !IsEol(s[m]) { assert s[j + (m - j)] == t[m - j]; }
  }

  lemma {:induction false} LineSought(s: seq<byte>, i: nat, d: nat)
    requires i <= d && d + 2 <= |s| && s[d] == CR && s[d + 1] == LF && forall m :: i <= m < d ==> !IsEol(s[m])
    ensures SeekLine(s, i) == Some(d + 2)
    decreases d - i
  {
    if i < d { LineSought(s, i + 1, d); }
  }

  lemma SizeRead(s: seq<byte>, i: nat, size: seq<byte>)
    requires IsNumeral(16, size) && OccursAt(s, i, size) && Numeral(16, size) <= INT_MAX
    requires i + |size| < |s| && !IsDigit(16, s[i + |size|])
    ensures Atoi(16, s, i) == Some((|size|, Numeral(16, size)))
  {
    hide OccursAt, RunEnd, NumVal;
    ScanNumeral(16, s, i, size);
  }

  lemma FramePiece(s: seq<byte>, i: nat, p: Piece, rest: seq<byte>)
    requires IsPiece(p) && rest != [] && |s| <= INT_MAX
    requires OccursAt(s, i, PieceText(p) + rest)
    ensures i < |s| && HttpFramer.Chunk(s, i) == Next(i + |PieceText(p)|)
  {
    hide OccursAt, Atoi, SeekLine, Trailers, SizeLine, IsSizeLine;
    PieceAt(s, i, p, rest);
    SizeLineRead(s, i, p.size, p.extension);
  }

  /** The trailer lines are walked over up to the blank line. */
  lemma {:induction false} TrailersWalk(s: seq<byte>, i: nat, ls: seq<seq<byte>>)
    requires AreLines(ls) && OccursAt(s, i, CRLF + (Block(ls) + CRLF))
    ensures Trailers(s, i) == i + |Block(ls)| + 4
    decreases |ls|
  {
    hide Trailers, OccursAt;
    OccursSplit(s, i, CRLF, Block(ls) + CRLF);
    CrlfAt(s, i);
    TrailersStep(s, i);
    if ls == [] {
      assert [] + CRLF == CRLF;
      CrlfAt(s, i + 2);
    } else {
      LineParts(s, i + 2, ls);
      NoEolInLine(s, i + 2, ls[0]);
      LineFits(s, i + 2, ls[0]);
      TrailersText(s, i + 2, i + 2 + |ls[0]|);
      TrailersWalk(s, i + 2 + |ls[0]|, ls[1..]);
    }
  }

  lemma {:induction false} TrailersText(s: seq<byte>, i: nat, d: nat)
    requires i <= d < |s| && forall m :: i <= m < d ==> !IsEol(s[m])
    ensures Trailers(s, i) == Trailers(s, d)
    decreases d - i
  {
    if i < d { TrailersText(s, i + 1, d); }
  }

  lemma FrameEnding(s: seq<byte>, i: nat, e: Ending)
    requires IsEnding(e) && OccursAt(s, i, EndingText(e))
    ensures Chunks(s, i) == i + |EndingText(e)|
  {
    hide OccursAt, Atoi, Trailers, SizeLine, IsSizeLine, Block;
    var line, tail := SizeLine(e.zero, e.extension), Block(e.trailers) + CRLF;
    OccursSplit(s, i, line, tail);
    SizeLineRead(s, i, e.zero, e.extension);
    EndOfSizeLine(s, i, e, tail);
    var d := i + |e.zero| + |e.extension|;
    TrailersText(s, i + |e.zero|, d);
    TrailersWalk(s, d, e.trailers);
  }

  lemma EndOfSizeLine(s: seq<byte>, i: nat, e: Ending, tail: seq<byte>)
    requires IsSizeLine(e.zero, e.extension)
    requires var line := SizeLine(e.zero, e.extension); OccursAt(s, i, line) && OccursAt(s, i + |line|, tail)
    ensures var d := i + |e.zero| + |e.extension|;
            && d < |s| && d + 2 == i + |SizeLine(e.zero, e.extension)| && OccursAt(s, d, CRLF + tail)
            && forall m :: i + |e.zero| <= m < d ==> !IsEol(s[m])
  {
    hide OccursAt;
    SizeLineAt(s, i, e.zero, e.extension);
    NoEolIn(s, i + |e.zero|, e.extension);
    OccursJoin(s, i + |e.zero| + |e.extension|, CRLF, tail);
  }

  /** The framer's chunk walk ends exactly at the end of the body, whatever follows. */
  lemma {:induction false} ChunksFramed(s: seq<byte>, i: nat, ps: seq<Piece>, e: Ending)
    requires WellFormed(ps, e) && |s| <= INT_MAX
    requires OccursAt(s, i, ChunkedBody(ps, e))
    ensures Chunks(s, i) == i + |ChunkedBody(ps, e)|
    decreases |ps|
  {
    hide OccursAt, PieceText, EndingText, HttpFramer.Chunk, IsPiece, IsEnding;
    if ps == [] {
      FrameEnding(s, i, e);
    } else {
      var rest := ChunkedBody(ps[1..], e);
      FramePiece(s, i, ps[0], rest);
      OccursSplit(s, i, PieceText(ps[0]), rest);
      ChunksFramed(s, i + |PieceText(ps[0])|, ps[1..], e);
    }
  }

  /** A body that goes on with something else than a size within an int is rejected. */
  lemma BadSize(s: seq<byte>, i: nat)
    requires i < |s| && (!IsDigit(16, s[i]) || Atoi(16, s, i).None?)
    ensures Chunks(s, i) == -1
  {
    hide NumVal, SeekLine, Trailers;
    if !IsDigit(16, s[i]) { RunEndUnique(16, s, i, i); }
  }

  /** So is a chunk that would end behind the largest position. */
  lemma HugeChunk(s: seq<byte>, i: nat, size: seq<byte>, extension: seq<byte>)
    requires IsSizeLine(size, extension) && OccursAt(s, i, SizeLine(size, extension))
    requires i + |SizeLine(size, extension)| + Numeral(16, size) > INT_MAX && Numeral(16, size) > 0
    ensures Chunks(s, i) == -1
  {
    hide OccursAt, SeekLine, Trailers, Atoi, SizeLine, IsSizeLine, Numeral;
    SizeLineRead(s, i, size, extension);
  }

  // ---- the decoder

  lemma {:induction false} ChunkSizeIs(s: seq<byte>, i: nat, k: nat, end: nat)
    requires i <= k <= end <= |s| && NumVal(16, s, i, end) <= INT_MAX
    ensures ChunkSize(s, k, end, NumVal(16, s, i, k)) == NumVal(16, s, i, end)
    decreases end - k
  {
    if k < end {
      NumValGrows(16, s, i, k + 1, end);
      NumValStep(s, i, k);
      hide NumVal, DigitValue, Wrap;
      NoWrap(NumVal(16, s, i, k + 1));
      ChunkSizeIs(s, i, k + 1, end);
    }
  }

  lemma NumValStep(s: seq<byte>, i: nat, k: nat)
    requires i <= k < |s|
    ensures NumVal(16, s, i, k + 1) == NumVal(16, s, i, k) * 16 + DigitValue(s[k])
  {
    hide DigitValue;
  }

  lemma NoWrap(n: nat)
    requires n <= INT_MAX
    ensures Wrap(n) == n
  {
  }

  lemma SizeScan(s: seq<byte>, i: nat, size: seq<byte>)
    requires IsNumeral(16, size) && OccursAt(s, i, size) && Numeral(16, size) <= INT_MAX
    requires i + |size| + 2 <= |s| && IsNotAlnum(s[i + |size|])
    ensures Find(s, i, |s| - 2, IsNotAlnum) == i + |size|
    ensures ChunkSize(s, i, i + |size|, 0) == Numeral(16, size)
  {
    forall k | i <= k < i + |size| ensures !IsNotAlnum(s[k]) {
      assert s[i + (k - i)] == size[k - i];
      assert IsDigit(16, size[k - i]);
    }
    FindIs(s, i, |s| - 2, IsNotAlnum, i + |size|);
    NumValShift(16, s, i, size, |size|);
    ChunkSizeIs(s, i, i, i + |size|);
  }

  lemma {:induction false} ExtensionSkipped(s: seq<byte>, i: nat, d: nat)
    requires i <= d && d + 2 <= |s| && s[d] == CR && s[d + 1] == LF && forall m :: i <= m < d ==> !IsEol(s[m])
    ensures ExtensionEnd(s, i) == Some(d)
    decreases d - i
  {
    if i < d { ExtensionSkipped(s, i + 1, d); }
  }

  /** One turn of the decoder's loop at a size line. */
  lemma TurnAt(s: seq<byte>, i: nat, size: seq<byte>, extension: seq<byte>, total: nat)
    requires IsSizeLine(size, extension) && OccursAt(s, i, SizeLine(size, extension))
    requires var d, n := i + |SizeLine(size, extension)|, Numeral(16, size); d + n <= |s| && total <= i
    ensures OneTurn(s, i, total) ==
              if Numeral(16, size) == 0 then Last else More(i + |SizeLine(size, extension)|, Numeral(16, size))
  {
    hide OccursAt, Find, ChunkSize, ExtensionEnd, IsNumeral, Numeral;
    SizeLineAt(s, i, size, extension);
    EndsSize(s, i + |size|, extension);
    SizeScan(s, i, size);
    NoEolIn(s, i + |size|, extension);
    ExtensionSkipped(s, i + |size|, i + |size| + |extension|);
  }

  /** The decoder's loop yields the chunks joined. */
  lemma {:induction false} ChunksDecoded(s: seq<byte>, i: nat, ps: seq<Piece>, e: Ending, content: seq<byte>)
    requires WellFormed(ps, e) && |content| <= i
    requires OccursAt(s, i, ChunkedBody(ps, e))
    ensures DecodeChunks(s, i, content) == Some(content + Joined(ps))
    decreases |ps|
  {
    hide OccursAt, PieceText, EndingText, OneTurn, IsSizeLine, SizeLine, Numeral, DecodeChunks, ChunkedBody, Joined;
    ChunkedBodyIs(ps, e);
    DecodeStep(s, i, content);
    if ps == [] {
      EndingAt(s, i, e);
      TurnAt(s, i, e.zero, e.extension, |content|);
      JoinedEmpty(content);
    } else {
      var p, rest := ps[0], ChunkedBody(ps[1..], e);
      PieceAt(s, i, p, rest);
      TurnAt(s, i, p.size, p.extension, |content|);
      ChunksDecoded(s, i + |PieceText(p)|, ps[1..], e, content + p.data);
      JoinedStep(content, ps);
    }
  }

  lemma ChunkedBodyIs(ps: seq<Piece>, e: Ending)
    ensures ps == [] ==> ChunkedBody(ps, e) == EndingText(e)
    ensures ps != [] ==> ChunkedBody(ps, e) == PieceText(ps[0]) + ChunkedBody(ps[1..], e)
  {
  }

  lemma EndingAt(s: seq<byte>, i: nat, e: Ending)
    requires OccursAt(s, i, EndingText(e))
    ensures var line := SizeLine(e.zero, e.extension); OccursAt(s, i, line) && i + |line| <= |s|
  {
    hide OccursAt, SizeLine;
    OccursSplit(s, i, SizeLine(e.zero, e.extension), Block(e.trailers) + CRLF);
    OccursSlice(s, i, SizeLine(e.zero, e.extension));
  }

  lemma JoinedEmpty(content: seq<byte>)
    ensures content + Joined([]) == content
  {
  }

  lemma JoinedStep(content: seq<byte>, ps: seq<Piece>)
    requires ps != []
    ensures content + Joined(ps) == content + ps[0].data + Joined(ps[1..])
  {
  }

  /** Framer and decoder on the same chunked body: the framer cuts it at its end and the decoder returns
      the concatenation of the chunks. */
  lemma ChunkedRoundTrip(before: seq<byte>, ps: seq<Piece>, e: Ending, rest: seq<byte>)
    requires WellFormed(ps, e)
    ensures
      var s := before + ChunkedBody(ps, e);
      && (|s + rest| <= INT_MAX ==> Chunks(s + rest, |before|) == |s|)
      && DecodeChunks(s, |before|, []) == Some(Joined(ps))
  {
    hide ChunkedBody, Chunks, DecodeChunks;
    var s := before + ChunkedBody(ps, e);
    BodyIn(before, ChunkedBody(ps, e), rest);
    BodyIn(before, ChunkedBody(ps, e), []);
    assert s + [] == s;
    if |s + rest| <= INT_MAX { ChunksFramed(s + rest, |before|, ps, e); }
    ChunksDecoded(s, |before|, ps, e, []);
    assert [] + Joined(ps) == Joined(ps);
  }

  lemma BodyIn(before: seq<byte>, body: seq<byte>, rest: seq<byte>)
    ensures OccursAt(before + body + rest, |before|, body)
  {
  }
}
