/** Framer and decoder on every chunked body that the framer accepts, src/comstack.c:303-347 and
    src/http.c:77-126: exactly when both find the same chunks. */
module HttpChunkAgreement {
  import opened Bytes
  import opened Pieces
  import opened Atoin
  import opened HttpFramer
  import opened HttpCodec

  /** A chunk: where its size line begins, where its data begins, and how many octets it has. */
  datatype Place = Place(line: nat, data: nat, size: nat)

  /** The chunks of an accepted body as the framer finds them; the zero chunk is the last. */
  function Framed(u: seq<byte>, i: nat): seq<Place>
    requires Chunks(u, i) > 0
    decreases |u| - i
  {
    match HttpFramer.Chunk(u, i)
    case Verdict(_) => [Place(i, 0, 0)]
    case Next(j) =>
      var (n, size) := Atoi(16, u, i).value;
      [Place(i, SeekLine(u, i + n).value, size)] + Framed(u, j)
  }

  /** The chunks as the decoder finds them; `total` octets were copied before. */
  function Decoded(u: seq<byte>, i: nat, total: nat): Option<seq<Place>>
    decreases |u| - i
  {
    match OneTurn(u, i, total)
    case Fails => None
    case Last => Some([Place(i, 0, 0)])
    case More(data, size) =>
      match Decoded(u, data + size + 2, total + size)
      case None => None
      case Some(ps) => Some([Place(i, data, size)] + ps)
  }

  function Content(u: seq<byte>, p: Place): seq<byte> {
    if p.data + p.size <= |u| then u[p.data..p.data + p.size] else []
  }

  function Contents(u: seq<byte>, ps: seq<Place>): seq<byte> {
    if ps == [] then [] else Content(u, ps[0]) + Contents(u, ps[1..])
  }

  lemma ContentsStep(u: seq<byte>, content: seq<byte>, p: Place, ps: seq<Place>)
    requires p.data + p.size <= |u|
    ensures content + Contents(u, [p] + ps) == content + u[p.data..p.data + p.size] + Contents(u, ps)
  {
    hide Contents;
    ContentsCons(u, p, ps);
    Regroup(content, Content(u, p), Contents(u, ps));
  }

  lemma ContentsCons(u: seq<byte>, p: Place, ps: seq<Place>)
    ensures Contents(u, [p] + ps) == Content(u, p) + Contents(u, ps)
  {
    hide Content;
    assert ([p] + ps)[0] == p && ([p] + ps)[1..] == ps;
  }

  lemma NoContents(u: seq<byte>, content: seq<byte>, i: nat)
    ensures content + Contents(u, [Place(i, 0, 0)]) == content
  {
  }

  /** What the decoder returns is the contents of the chunks it finds. */
  lemma {:induction false} DecodedContents(u: seq<byte>, i: nat, content: seq<byte>)
    ensures DecodeChunks(u, i, content) ==
              var ps := Decoded(u, i, |content|);
              if ps.None? then None else Some(content + Contents(u, ps.value))
    decreases |u| - i
  {
    hide Contents, DecodeChunks, Decoded, OneTurn;
    var t := OneTurn(u, i, |content|);
    DecodeStep(u, i, content);
    DecodedTurn(u, i, |content|);
    if t.Last? {
      NoContents(u, content, i);
    } else if t.More? {
      var next, data := t.data + t.size + 2, u[t.data..t.data + t.size];
      DecodedContents(u, next, content + data);
      var rest := Decoded(u, next, |content| + t.size);
      if rest.Some? {
        ContentsStep(u, content, Place(i, t.data, t.size), rest.value);
      }
    }
  }

  lemma DecodedTurn(u: seq<byte>, i: nat, total: nat)
    ensures var t := OneTurn(u, i, total);
            && (t.Fails? ==> Decoded(u, i, total) == None)
            && (t.Last? ==> Decoded(u, i, total) == Some([Place(i, 0, 0)]))
            && (t.More? ==>
                var rest := Decoded(u, t.data + t.size + 2, total + t.size);
                Decoded(u, i, total) == if rest.None? then None else Some([Place(i, t.data, t.size)] + rest.value))
  {
    hide OneTurn;
  }

  // ---- agreement

  /** Where the decoder stops reading the size. */
  function SizeEnd(u: seq<byte>, i: nat): nat
    requires 2 <= |u|
  {
    Find(u, i, |u| - 2, IsNotAlnum)
  }

  /** The decoder, which takes every letter for a digit and keeps 32 bits, computes this size. */
  predicate SizeAgrees(u: seq<byte>, i: nat, size: nat)
    requires i + 2 <= |u|
  {
    ChunkSize(u, i, SizeEnd(u, i), 0) == size
  }

  /** Between the size and the line end there is room for the CR that the decoder skips, and no other CR. */
  predicate LineAgrees(u: seq<byte>, i: nat, data: nat)
    requires i + 2 <= |u|
  {
    SizeEnd(u, i) + 2 <= data <= |u| && forall k :: SizeEnd(u, i) <= k < data - 2 ==> u[k] != CR
  }

  /** Every size and every size line agree, and the data of every chunk ends in CRLF. */
  predicate Agrees(u: seq<byte>, i: nat)
    requires Chunks(u, i) > 0
    decreases |u| - i
  {
    i + 2 <= |u| &&
    match HttpFramer.Chunk(u, i)
    case Verdict(_) => SizeAgrees(u, i, 0)
    case Next(j) =>
      var (n, size) := Atoi(16, u, i).value;
      var data := SeekLine(u, i + n).value;
      SizeAgrees(u, i, size) && LineAgrees(u, i, data) && j == data + size + 2 && Agrees(u, j)
  }

  /** The line end that the framer finds is the first LF. */
  lemma {:induction false} SeekLineFirst(u: seq<byte>, p: nat)
    requires SeekLine(u, p).Some?
    ensures var data := SeekLine(u, p).value;
            p < data <= |u| && u[data - 1] == LF && forall k :: p <= k < data - 1 ==> u[k] != LF
    decreases |u| - p
  {
    if SkipCrlf(u, p) == p {
      SeekLineFirst(u, p + 1);
    }
  }

  lemma {:induction false} ExtensionEndIs(u: seq<byte>, d: nat, e: nat)
    requires d <= e && e + 2 <= |u| && (u[e] == CR || u[e + 1] == LF)
    requires (forall k :: d <= k < e ==> u[k] != CR) && (forall k :: d < k <= e ==> u[k] != LF)
    ensures ExtensionEnd(u, d) == Some(e)
    decreases e - d
  {
    if d < e {
      ExtensionEndIs(u, d + 1, e);
    }
  }

  lemma {:induction false} ExtensionEndStops(u: seq<byte>, d: nat)
    ensures var r := ExtensionEnd(u, d);
            r.Some? ==> d <= r.value && r.value + 2 <= |u| && (u[r.value] == CR || u[r.value + 1] == LF)
    ensures var r := ExtensionEnd(u, d);
            r.Some? ==> (forall k :: d <= k < r.value ==> u[k] != CR) && (forall k :: d < k <= r.value ==> u[k] != LF)
    decreases |u| - d
  {
    if d + 2 < |u| && u[d] != CR && u[d + 1] != LF {
      ExtensionEndStops(u, d + 1);
    }
  }

  /** The size run of the framer is part of the decoder's. */
  lemma SizeEndAfter(u: seq<byte>, i: nat, p: nat)
    requires i <= p <= |u| - 2 && forall k :: i <= k < p ==> IsDigit(16, u[k])
    ensures p <= SizeEnd(u, i) <= |u| - 2
  {
  }

  /** The decoder begins the data where the framer does exactly if the size line agrees. */
  lemma LineExactly(u: seq<byte>, i: nat, p: nat, data: nat)
    requires i <= p <= |u| - 2 && forall k :: i <= k < p ==> IsDigit(16, u[k])
    requires SeekLine(u, p) == Some(data) && data < |u|
    ensures ExtensionEnd(u, SizeEnd(u, i)) == Some(data - 2) <==> LineAgrees(u, i, data)
  {
    hide SeekLine, ExtensionEnd, SizeEnd;
    SizeEndAfter(u, i, p);
    SeekLineFirst(u, p);
    var d := SizeEnd(u, i);
    ExtensionEndStops(u, d);
    if LineAgrees(u, i, data) {
      ExtensionEndIs(u, d, data - 2);
    }
  }

  /** The facts about one chunk that the framer steps over. */
  lemma ChunkFacts(u: seq<byte>, i: nat)
    requires i < |u| && HttpFramer.Chunk(u, i).Next?
    ensures Atoi(16, u, i).Some?
    ensures var (n, size) := Atoi(16, u, i).value;
            && n > 0 && size > 0 && i + n + 2 <= |u| && SeekLine(u, i + n).Some?
            && (forall k :: i <= k < i + n ==> IsDigit(16, u[k]))
            && var data := SeekLine(u, i + n).value;
               data + size + 2 < |u| && HttpFramer.Chunk(u, i).i <= data + size + 2
  {
  }

  /** The framer found a zero chunk: the body has a line end behind it. */
  lemma ZeroFacts(u: seq<byte>, i: nat)
    requires i < |u| && HttpFramer.Chunk(u, i).Verdict? && HttpFramer.Chunk(u, i).r > 0
    ensures i + 3 <= HttpFramer.Chunk(u, i).r <= |u| && u[HttpFramer.Chunk(u, i).r - 1] == LF
    ensures Atoi(16, u, i).Some? && Atoi(16, u, i).value.1 == 0
  {
    var n := Atoi(16, u, i).value.0;
    TrailersEnd(u, i + n);
  }

  lemma {:induction false} TrailersEnd(u: seq<byte>, p: nat)
    requires Trailers(u, p) > 0
    ensures p + 2 <= Trailers(u, p) <= |u| && u[Trailers(u, p) - 1] == LF
    decreases |u| - p
  {
    var j := SkipCrlf(u, p);
    if j == p {
      TrailersEnd(u, p + 1);
    } else if SkipCrlf(u, j) == j {
      TrailersEnd(u, j);
    }
  }

  /** With a line end at the end the decoder always finds one. */
  lemma {:induction false} ExtensionFound(u: seq<byte>, d: nat)
    requires d + 2 <= |u| && u[|u| - 1] == LF
    ensures ExtensionEnd(u, d).Some?
    decreases |u| - d
  {
    if d + 2 < |u| && u[d] != CR && u[d + 1] != LF {
      ExtensionFound(u, d + 1);
    }
  }

  lemma DecodedStep(u: seq<byte>, i: nat, total: nat)
    requires i + 2 <= |u|
    ensures var size, e := ChunkSize(u, i, SizeEnd(u, i), 0), ExtensionEnd(u, SizeEnd(u, i));
            Decoded(u, i, total) ==
              if e.None? then None
              else if size == 0 then Some([Place(i, 0, 0)])
              else if size < 0 || total + size > |u| || e.value + 2 + size > |u| then None
              else
                var ps := Decoded(u, e.value + 2 + size + 2, total + size);
                if ps.None? then None else Some([Place(i, e.value + 2, size)] + ps.value)
  {
    hide ChunkSize, ExtensionEnd, SizeEnd, OneTurn, Decoded;
    DecodedTurn(u, i, total);
    TurnIs(u, i, total);
  }

  lemma TurnIs(u: seq<byte>, i: nat, total: nat)
    requires i + 2 <= |u|
    ensures var size, e := ChunkSize(u, i, SizeEnd(u, i), 0), ExtensionEnd(u, SizeEnd(u, i));
            OneTurn(u, i, total) ==
              if e.None? then Fails
              else if size == 0 then Last
              else if size < 0 || total + size > |u| || e.value + 2 + size > |u| then Fails
              else More(e.value + 2, size)
  {
    hide Find, ChunkSize, ExtensionEnd;
  }

  lemma DecodedHead(u: seq<byte>, i: nat, total: nat)
    ensures var ps := Decoded(u, i, total); ps.Some? ==> ps.value != [] && ps.value[0].line == i
  {
    hide Find, ChunkSize, ExtensionEnd;
  }

  lemma FramedHead(u: seq<byte>, i: nat)
    requires Chunks(u, i) > 0
    ensures Framed(u, i) != [] && Framed(u, i)[0].line == i
  {
  }

  /** The chunk that follows. */
  lemma RestOfChunks(u: seq<byte>, i: nat)
    requires Chunks(u, i) > 0 && HttpFramer.Chunk(u, i).Next?
    ensures Atoi(16, u, i).Some?
    ensures var (n, size) := Atoi(16, u, i).value;
            var j := HttpFramer.Chunk(u, i).i;
            && SeekLine(u, i + n).Some? && Chunks(u, j) == Chunks(u, i)
            && Framed(u, i) == [Place(i, SeekLine(u, i + n).value, size)] + Framed(u, j)
  {
  }

  /** The last chunk. */
  lemma LastExactly(u: seq<byte>, i: nat, total: nat)
    requires Chunks(u, i) == |u| > 0 && i + 2 <= |u| && u[|u| - 1] == LF
    ensures Decoded(u, i, total) == Some([Place(i, 0, 0)]) <==> SizeAgrees(u, i, 0)
  {
    hide Decoded, ChunkSize, ExtensionEnd, SizeEnd, Chunks;
    DecodedStep(u, i, total);
    SizeEndBound(u, i);
    ExtensionFound(u, SizeEnd(u, i));
    if Decoded(u, i, total) == Some([Place(i, 0, 0)]) {
      assert Decoded(u, i, total).value[0].size == 0;
    }
  }

  /** Every body that the framer accepts as a whole: the decoder finds the same chunks in the same places
      if and only if the two agree on every size, every size line and every line end behind data. */
  lemma {:induction false} SameChunksExactly(u: seq<byte>, i: nat, total: nat)
    requires Chunks(u, i) == |u| > 0 && total <= i
    ensures Decoded(u, i, total) == Some(Framed(u, i)) <==> Agrees(u, i)
    decreases |u| - i
  {
    hide HttpFramer.Chunk, Decoded, ChunkSize, ExtensionEnd, SeekLine, LineAgrees, SizeEnd;
    if HttpFramer.Chunk(u, i).Verdict? {
      ZeroFacts(u, i);
      LastExactly(u, i, total);
    } else {
      ChunkFacts(u, i);
      RestOfChunks(u, i);
      var (n, size) := Atoi(16, u, i).value;
      var data, j := SeekLine(u, i + n).value, HttpFramer.Chunk(u, i).i;
      DecodedStep(u, i, total);
      LineExactly(u, i, i + n, data);
      SeekLineFirst(u, i + n);
      var place := Place(i, data, size);
      assert Framed(u, i)[0] == place;
      if SizeAgrees(u, i, size) && LineAgrees(u, i, data) {
        var rest := Decoded(u, data + size + 2, total + size);
        assert Decoded(u, i, total) == Some(Framed(u, i)) <==> rest == Some(Framed(u, j)) by {
          SameHead(place, rest, Framed(u, j));
        }
        if j == data + size + 2 {
          SameChunksExactly(u, j, total + size);
        } else if rest == Some(Framed(u, j)) {
          DecodedHead(u, data + size + 2, total + size);
          FramedHead(u, j);
        }
      }
    }
  }

  lemma SizeEndBound(u: seq<byte>, i: nat)
    requires i + 2 <= |u|
    ensures i <= SizeEnd(u, i) <= |u| - 2
  {
  }

  lemma SameHead(p: Place, rest: Option<seq<Place>>, ps: seq<Place>)
    ensures (if rest.None? then None else Some([p] + rest.value)) == Some([p] + ps) <==> rest == Some(ps)
  {
    if rest.Some? && [p] + rest.value == [p] + ps {
      assert ([p] + rest.value)[1..] == rest.value && ([p] + ps)[1..] == ps;
    }
  }

  /** Then the decoder returns the framer's chunks joined. */
  lemma AgreeingContent(u: seq<byte>, i: nat)
    requires Chunks(u, i) == |u| > 0 && Agrees(u, i)
    ensures DecodeChunks(u, i, []) == Some(Contents(u, Framed(u, i)))
  {
    hide Chunks, Agrees, DecodeChunks, Decoded, Framed;
    SameChunksExactly(u, i, 0);
    DecodedContents(u, i, []);
    var c := Contents(u, Framed(u, i));
    assert [] + c == c;
  }

  // ---- the message that is cut off where the framer says

  lemma {:induction false} SeekLineCut(s: seq<byte>, p: nat, r: nat)
    requires r <= |s| && SeekLine(s, p).Some? && SeekLine(s, p).value < r
    ensures SeekLine(s[..r], p) == SeekLine(s, p)
    decreases |s| - p
  {
    if SkipCrlf(s, p) == p {
      SeekLineCut(s, p + 1, r);
    }
  }

  lemma {:induction false} TrailersCut(s: seq<byte>, p: nat)
    requires Trailers(s, p) > 0
    ensures Trailers(s[..Trailers(s, p)], p) == Trailers(s, p)
    decreases |s| - p
  {
    hide Trailers, SkipCrlf;
    var u := s[..Trailers(s, p)];
    TrailersEnd(s, p);
    TrailersStep(s, p);
    TrailersStep(u, p);
    var j := SkipCrlf(s, p);
    if j == p {
      TrailersEnd(s, p + 1);
      TrailersCut(s, p + 1);
    } else if SkipCrlf(s, j) == j {
      TrailersEnd(s, j);
      TrailersCut(s, j);
    }
    SkipCrlfCut(s, |u|, p);
    SkipCrlfCut(s, |u|, j);
  }

  lemma SkipCrlfCut(s: seq<byte>, r: nat, p: nat)
    requires p <= r <= |s| && SkipCrlf(s, p) <= r
    ensures SkipCrlf(s[..r], p) == SkipCrlf(s, p)
  {
  }

  lemma AtoiCut(s: seq<byte>, i: nat, r: nat)
    requires i <= r <= |s| && Atoi(16, s, i).Some? && i + Atoi(16, s, i).value.0 < r
    ensures Atoi(16, s[..r], i) == Atoi(16, s, i)
  {
    var n := Atoi(16, s, i).value.0;
    RunEndUnique(16, s[..r], i, i + n);
    NumValStable(16, s[..r], s, i, i + n);
  }

  lemma {:induction false} ChunksLength(s: seq<byte>, i: nat)
    requires Chunks(s, i) > 0
    ensures i + 3 <= Chunks(s, i)
    decreases |s| - i
  {
    if HttpFramer.Chunk(s, i).Verdict? {
      ZeroFacts(s, i);
    } else {
      ChunksLength(s, HttpFramer.Chunk(s, i).i);
    }
  }

  /** The framer accepts the message that it cut off as a whole. */
  lemma {:induction false} ChunksCut(s: seq<byte>, i: nat)
    requires Chunks(s, i) > 0
    ensures Chunks(s[..Chunks(s, i)], i) == Chunks(s, i)
    decreases |s| - i
  {
    hide HttpFramer.Chunk;
    ChunksLength(s, i);
    if HttpFramer.Chunk(s, i).Verdict? {
      LastChunkCut(s, i);
    } else {
      var j := HttpFramer.Chunk(s, i).i;
      ChunksLength(s, j);
      ChunkCut(s, i, Chunks(s, i));
      ChunksCut(s, j);
    }
  }

  lemma LastChunkCut(s: seq<byte>, i: nat)
    requires i < |s| && HttpFramer.Chunk(s, i).Verdict? && HttpFramer.Chunk(s, i).r > 0
    ensures var r := HttpFramer.Chunk(s, i).r; i < r && HttpFramer.Chunk(s[..r], i) == Verdict(r)
  {
    hide Atoi, SeekLine, Trailers;
    var r := HttpFramer.Chunk(s, i).r;
    var n := Atoi(16, s, i).value.0;
    TrailersEnd(s, i + n);
    AtoiCut(s, i, r);
    TrailersCut(s, i + n);
  }

  lemma ChunkCut(s: seq<byte>, i: nat, r: nat)
    requires i < r <= |s| && HttpFramer.Chunk(s, i).Next? && HttpFramer.Chunk(s, i).i + 3 <= r
    ensures HttpFramer.Chunk(s[..r], i) == HttpFramer.Chunk(s, i)
  {
    hide Atoi, SeekLine, Trailers, SkipCrlf;
    var (n, size) := Atoi(16, s, i).value;
    var data := SeekLine(s, i + n).value;
    SeekLineFirst(s, i + n);
    AtoiCut(s, i, r);
    SeekLineCut(s, i + n, r);
    SkipCrlfCut(s, r, data + size);
  }

  /** Every body that the framer accepts, whatever follows it: the decoder, given the message that the
      framer cut off, finds its chunks if and only if the two agree. */
  lemma CutOffExactly(s: seq<byte>, i: nat)
    requires Chunks(s, i) > 0
    ensures var u := s[..Chunks(s, i)];
            && Chunks(u, i) == |u|
            && (Decoded(u, i, 0) == Some(Framed(u, i)) <==> Agrees(u, i))
            && (Agrees(u, i) ==> DecodeChunks(u, i, []) == Some(Contents(u, Framed(u, i))))
  {
    hide Chunks, Decoded, Agrees, Framed, DecodeChunks;
    var u := s[..Chunks(s, i)];
    ChunksCut(s, i);
    SameChunksExactly(u, i, 0);
    if Agrees(u, i) {
      AgreeingContent(u, i);
    }
  }

  // ---- bodies that the framer accepts and the decoder does not read

  /** The number that letters and digits are with sixteen for every place, without bound. */
  function PlacesOf(s: seq<byte>, i: nat, end: nat, n: int): int
    requires i <= end <= |s|
    decreases end - i
  {
    if i == end then n else PlacesOf(s, i + 1, end, n * 16 + DigitValue(s[i]))
  }

  lemma WrapIs(v: int) returns (k: int)
    ensures Wrap(v) == v + k * 0x1_0000_0000
  {
    k := -(v / 0x1_0000_0000) - (if v % 0x1_0000_0000 <= INT_MAX then 0 else 1);
  }

  lemma {:induction false} SizeIsCongruent(s: seq<byte>, i: nat, end: nat, a: int, n: int, j: int) returns (k: int)
    requires i <= end <= |s| && a == n + j * 0x1_0000_0000
    ensures ChunkSize(s, i, end, a) == PlacesOf(s, i, end, n) + k * 0x1_0000_0000
    decreases end - i
  {
    hide Wrap, DigitValue;
    if i == end {
      k := j;
    } else {
      var d := DigitValue(s[i]);
      var w := WrapIs(a * 16 + d);
      k := SizeIsCongruent(s, i + 1, end, Wrap(a * 16 + d), n * 16 + d, 16 * j + w);
    }
  }

  /** The size that the decoder computes is that number in the 32 bits of a C int. */
  lemma SizeModulo(s: seq<byte>, i: nat, end: nat) returns (k: int)
    requires i <= end <= |s|
    ensures var size := ChunkSize(s, i, end, 0);
            -0x8000_0000 <= size <= INT_MAX && size == PlacesOf(s, i, end, 0) + k * 0x1_0000_0000
  {
    SizeInRange(s, i, end, 0);
    k := SizeIsCongruent(s, i, end, 0, 0, 0);
  }

  lemma {:induction false} SizeInRange(s: seq<byte>, i: nat, end: nat, a: int)
    requires i <= end <= |s| && -0x8000_0000 <= a <= INT_MAX
    ensures -0x8000_0000 <= ChunkSize(s, i, end, a) <= INT_MAX
    decreases end - i
  {
    hide DigitValue;
    if i < end { SizeInRange(s, i + 1, end, Wrap(a * 16 + DigitValue(s[i]))); }
  }

  /** "5g" CRLF "abcde" CRLF "0" CRLF CRLF: the framer reads the size 5, the decoder 96. */
  const LETTER_IN_SIZE: seq<byte> := [53, 103, 13, 10, 97, 98, 99, 100, 101, 13, 10, 48, 13, 10, 13, 10]

  lemma LetterInSize()
    ensures Chunks(LETTER_IN_SIZE, 0) == |LETTER_IN_SIZE| && DecodeChunks(LETTER_IN_SIZE, 0, []) == None
  {
    hide Chunks, DecodeChunks;
    LetterFramed(LETTER_IN_SIZE);
    LetterDecoded(LETTER_IN_SIZE);
  }

  lemma LetterFramed(u: seq<byte>)
    requires |u| == 16 && u[0] == 53 && u[1] == 103 && u[2] == CR && u[3] == LF
    requires u[9] == CR && u[10] == LF && u[11] == 48 && u[12] == CR && u[13] == LF && u[14] == CR && u[15] == LF
    ensures Chunks(u, 0) == 16
  {
    RunEndUnique(16, u, 0, 1);
    assert NumVal(16, u, 0, 0) == 0 && NumVal(16, u, 0, 1) == 5;
    assert SeekLine(u, 2) == Some(4);
    assert SeekLine(u, 1) == Some(4);
    assert HttpFramer.Chunk(u, 0) == Next(11);
    RunEndUnique(16, u, 11, 12);
    assert NumVal(16, u, 11, 11) == 0 && NumVal(16, u, 11, 12) == 0;
    assert Trailers(u, 12) == 16;
    assert HttpFramer.Chunk(u, 11) == Verdict(16);
  }

  lemma LetterDecoded(u: seq<byte>)
    requires |u| == 16 && u[0] == 53 && u[1] == 103 && u[2] == CR
    ensures DecodeChunks(u, 0, []) == None
  {
    FindIs(u, 0, 14, IsNotAlnum, 2);
    assert ChunkSize(u, 2, 2, 96) == 96;
    assert ChunkSize(u, 1, 2, 5) == 96;
    assert ChunkSize(u, 0, 2, 0) == 96;
    assert ExtensionEnd(u, 2) == Some(2);
  }

  /** "3" LF "abc" LF "0" LF LF: the decoder looks for the LF behind the data and takes the zero chunk for
      the data. */
  const BARE_LINE_ENDS: seq<byte> := [51, 10, 97, 98, 99, 10, 48, 10, 10]

  lemma BareLineEnds()
    ensures Chunks(BARE_LINE_ENDS, 0) == |BARE_LINE_ENDS| && DecodeChunks(BARE_LINE_ENDS, 0, []) == None
  {
    hide Chunks, DecodeChunks;
    BareFramed(BARE_LINE_ENDS);
    BareDecoded(BARE_LINE_ENDS);
  }

  lemma BareFramed(u: seq<byte>)
    requires |u| == 9 && u[0] == 51 && u[1] == LF && u[5] == LF && u[6] == 48 && u[7] == LF && u[8] == LF
    ensures Chunks(u, 0) == 9
  {
    RunEndUnique(16, u, 0, 1);
    assert NumVal(16, u, 0, 0) == 0 && NumVal(16, u, 0, 1) == 3;
    assert SeekLine(u, 1) == Some(2);
    assert HttpFramer.Chunk(u, 0) == Next(6);
    RunEndUnique(16, u, 6, 7);
    assert NumVal(16, u, 6, 6) == 0 && NumVal(16, u, 6, 7) == 0;
    assert Trailers(u, 7) == 9;
    assert HttpFramer.Chunk(u, 6) == Verdict(9);
    assert Chunks(u, 6) == 9;
  }

  lemma BareDecoded(u: seq<byte>)
    requires |u| == 9 && u[0] == 51 && u[1] == LF && u[2] == 97 && u[3] == 98 && u[4] == 99 && u[5] == LF
    ensures DecodeChunks(u, 0, []) == None
  {
    FindIs(u, 0, 7, IsNotAlnum, 1);
    assert ChunkSize(u, 1, 1, 3) == 3;
    assert ChunkSize(u, 0, 1, 0) == 3;
    ExtensionEndIs(u, 1, 4);
    assert DecodeChunks(u, 11, [] + u[6..9]) == None;
  }
}
